/** The primary classifier, Poker/Program.cs: the card table and deck (`CardCollector`), the
    validator (`HandValidator`), the evaluator (`HandEvaluator`) and the validate, extract and
    evaluate step of the driver. Everything here is a pure function of its arguments. */
module Poker {
  import opened Linq

  // ---------------------------------------------------------------------------
  // CardCollector
  // ---------------------------------------------------------------------------

  /** `CardCollector.CardValue`: the value of each rank character. */
  const CardValue: map<char, int> := map[
    '2' := 2, '3' := 3, '4' := 4, '5' := 5, '6' := 6, '7' := 7, '8' := 8, '9' := 9,
    'T' := 10, 'J' := 11, 'Q' := 12, 'K' := 13, 'A' := 14]

  /** The order in which `CardValue.Keys` enumerates: the order the entries were added. */
  const RankKeys: seq<char> := ['2', '3', '4', '5', '6', '7', '8', '9', 'T', 'J', 'Q', 'K', 'A']

  /** `CardCollector.suits`. */
  const Suits: seq<char> := ['h', 'd', 'c', 's']

  /** `CardCollector.FullDeck`: every rank key followed by every suit, as a set. */
  const FullDeck: set<string> := Cards(CardValue.Keys, Suits)

  /** The table's keys are the thirteen ranks. */
  lemma CardValueKeys()
    ensures CardValue.Keys == {'2', '3', '4', '5', '6', '7', '8', '9', 'T', 'J', 'Q', 'K', 'A'}
  {
  }

  /** `RankKeys` lists each key of the table once. */
  lemma RankKeysEnumerateKeys()
    ensures ToSet(RankKeys) == CardValue.Keys && NoDuplicates(RankKeys)
  {
    RankKeysCoverKeys();
    RankKeysDistinct();
  }

  lemma RankKeysCoverKeys()
    ensures ToSet(RankKeys) == CardValue.Keys
  {
  }

  lemma RankKeysDistinct()
    ensures NoDuplicates(RankKeys)
  {
  }

  /** Along `RankKeys` the values run from 2 to 14, so the table's values are exactly 2 to 14. */
  lemma CardValueRange()
    ensures forall i :: 0 <= i < |RankKeys| ==> CardValue[RankKeys[i]] == i + 2
    ensures forall r :: r in CardValue ==> 2 <= CardValue[r] <= 14
  {
  }

  /** No two ranks share a value. */
  lemma CardValueInjective()
    ensures forall r1, r2 :: r1 in CardValue && r2 in CardValue && r1 != r2 ==>
      CardValue[r1] != CardValue[r2]
  {
  }

  /** The deck holds exactly the two-character strings of a known rank followed by one of the
      four suits, and there are 52 of them. */
  lemma FullDeckFacts()
    ensures forall t :: t in FullDeck <==> |t| == 2 && t[0] in CardValue && t[1] in Suits
    ensures |FullDeck| == 52
  {
    RankKeysEnumerateKeys();
    CardsMembership(CardValue.Keys, Suits);
    CardsSize(CardValue.Keys, RankKeys, Suits);
  }

  // ---------------------------------------------------------------------------
  // HandValidator
  // ---------------------------------------------------------------------------

  /** `s.Replace("10", "T")`: every "10", found left to right without overlap, becomes "T".
      The result is no longer than `s`, and every character of it other than 'T' comes from
      `s`. */
  function ReplaceTen(s: string): (r: string)
    ensures |r| <= |s|
    ensures forall c :: c in r && c != 'T' ==> c in s
  {
    if |s| >= 2 && s[0] == '1' && s[1] == '0' then "T" + ReplaceTen(s[2..])
    else if s == [] then []
    else [s[0]] + ReplaceTen(s[1..])
  }

  /** `s` has no "1" directly followed by "0". */
  predicate NoTen(s: string) {
    forall i :: 0 <= i < |s| - 1 ==> !(s[i] == '1' && s[i + 1] == '0')
  }

  lemma ReplaceTenHead(s: string)
    requires s != []
    ensures ReplaceTen(s) != []
    ensures ReplaceTen(s)[0] == if |s| >= 2 && s[0] == '1' && s[1] == '0' then 'T' else s[0]
  {
  }

  /** No "10" survives the replacement. */
  lemma {:induction false} ReplaceTenRemovesAll(s: string)
    ensures NoTen(ReplaceTen(s))
  {
    if |s| >= 2 && s[0] == '1' && s[1] == '0' {
      ReplaceTenRemovesAll(s[2..]);
      var r := ReplaceTen(s);
      assert r == "T" + ReplaceTen(s[2..]);
      forall i | 0 <= i < |r| - 1 ensures !(r[i] == '1' && r[i + 1] == '0') {
        if i > 0 {
          assert r[i] == ReplaceTen(s[2..])[i - 1] && r[i + 1] == ReplaceTen(s[2..])[i];
        }
      }
    } else if s != [] {
      ReplaceTenRemovesAll(s[1..]);
      var rest := ReplaceTen(s[1..]);
      var r := ReplaceTen(s);
      assert r == [s[0]] + rest;
      if s[1..] != [] {
        ReplaceTenHead(s[1..]);
      }
      forall i | 0 <= i < |r| - 1 ensures !(r[i] == '1' && r[i + 1] == '0') {
        if i > 0 {
          assert r[i] == rest[i - 1] && r[i + 1] == rest[i];
        } else {
          assert r[1] == rest[0];
        }
      }
    }
  }

  /** A string without "10" is left as it is. */
  lemma {:induction false} ReplaceTenKeepsOthers(s: string)
    requires NoTen(s)
    ensures ReplaceTen(s) == s
  {
    if s != [] {
      assert !(|s| >= 2 && s[0] == '1' && s[1] == '0');
      assert NoTen(s[1..]) by {
        forall i | 0 <= i < |s[1..]| - 1 ensures !(s[1..][i] == '1' && s[1..][i + 1] == '0') {
          assert s[1..][i] == s[i + 1] && s[1..][i + 1] == s[i + 2];
        }
      }
      ReplaceTenKeepsOthers(s[1..]);
    }
  }

  /** Replacing twice is replacing once. */
  lemma ReplaceTenIdempotent(s: string)
    ensures ReplaceTen(ReplaceTen(s)) == ReplaceTen(s)
  {
    ReplaceTenRemovesAll(s);
    ReplaceTenKeepsOthers(ReplaceTen(s));
  }

  lemma {:induction false} NoTenJoin(ts: seq<string>)
    requires |ts| >= 1 && NoTen(Join(ts, ' '))
    ensures forall t :: t in ts ==> NoTen(t)
  {
    if |ts| > 1 {
      var j := Join(ts, ' ');
      var rest := Join(ts[1..], ' ');
      assert j == ts[0] + " " + rest;
      assert NoTen(ts[0]) by {
        forall i | 0 <= i < |ts[0]| - 1 ensures !(ts[0][i] == '1' && ts[0][i + 1] == '0') {
          assert j[i] == ts[0][i] && j[i + 1] == ts[0][i + 1];
        }
      }
      assert NoTen(rest) by {
        var k := |ts[0]| + 1;
        forall i | 0 <= i < |rest| - 1 ensures !(rest[i] == '1' && rest[i + 1] == '0') {
          assert j[k + i] == rest[i] && j[k + i + 1] == rest[i + 1];
        }
      }
      NoTenJoin(ts[1..]);
      assert forall t :: t in ts ==> t == ts[0] || t in ts[1..];
    }
  }

  /** `HandValidator.ConvertToValidCards`: the pieces of the hand, split at single spaces,
      after "10" has been rewritten to "T". Joining the pieces with spaces gives the rewritten
      hand back, and no piece holds a space or a "10". */
  function ConvertToValidCards(hand: string): (cards: seq<string>)
    ensures |cards| >= 1
    ensures Join(cards, ' ') == ReplaceTen(hand)
    ensures forall c :: c in cards ==> ' ' !in c && NoTen(c)
  {
    var cards := Split(ReplaceTen(hand), ' ');
    JoinSplit(ReplaceTen(hand), ' ');
    ReplaceTenRemovesAll(hand);
    NoTenJoin(cards);
    cards
  }

  /** "10" never spans a space, so rewriting a hand rewrites each of its pieces on its own. */
  lemma {:induction false} ReplaceTenAroundSpace(t: string, u: string)
    ensures ReplaceTen(t + [' '] + u) == ReplaceTen(t) + [' '] + ReplaceTen(u)
  {
    var s := t + [' '] + u;
    if t == [] {
      assert s == [' '] + u && s[1..] == u;
    } else if |t| >= 2 && t[0] == '1' && t[1] == '0' {
      assert s[0] == '1' && s[1] == '0';
      assert s[2..] == t[2..] + [' '] + u;
      assert ReplaceTen(s) == "T" + ReplaceTen(s[2..]);
      assert ReplaceTen(t) == "T" + ReplaceTen(t[2..]);
      ReplaceTenAroundSpace(t[2..], u);
      AppendAround("T", ReplaceTen(t[2..]), ReplaceTen(u));
    } else {
      assert s[0] == t[0] && s[1] == if |t| == 1 then ' ' else t[1];
      assert s[1..] == t[1..] + [' '] + u;
      assert ReplaceTen(s) == [s[0]] + ReplaceTen(s[1..]);
      assert ReplaceTen(t) == [t[0]] + ReplaceTen(t[1..]);
      ReplaceTenAroundSpace(t[1..], u);
      AppendAround([t[0]], ReplaceTen(t[1..]), ReplaceTen(u));
    }
  }

  lemma AppendAround(a: string, b: string, c: string)
    ensures a + (b + [' '] + c) == (a + b) + [' '] + c
  {
  }

  /** Each string of `ts` with "10" rewritten. */
  function ReplaceTenEach(ts: seq<string>): (rs: seq<string>)
    ensures |rs| == |ts|
  {
    seq(|ts|, i requires 0 <= i < |ts| => ReplaceTen(ts[i]))
  }

  lemma {:induction false} ReplaceTenJoin(ts: seq<string>)
    requires |ts| >= 1
    ensures ReplaceTen(Join(ts, ' ')) == Join(ReplaceTenEach(ts), ' ')
  {
    if |ts| > 1 {
      ReplaceTenJoin(ts[1..]);
      ReplaceTenAroundSpace(ts[0], Join(ts[1..], ' '));
      assert ReplaceTenEach(ts)[1..] == ReplaceTenEach(ts[1..]);
    }
  }

  /** The converted cards are the hand's pieces between spaces, each with "10" rewritten to
      "T": the rewrite never joins or splits pieces. */
  lemma ConvertToValidCardsPerPiece(hand: string)
    ensures ConvertToValidCards(hand) == ReplaceTenEach(Split(hand, ' '))
  {
    var pieces := Split(hand, ' ');
    JoinSplit(hand, ' ');
    ReplaceTenJoin(pieces);
    forall t | t in ReplaceTenEach(pieces) ensures ' ' !in t {
      var i :| 0 <= i < |pieces| && ReplaceTenEach(pieces)[i] == t;
      assert pieces[i] in pieces;
    }
    SplitJoin(ReplaceTenEach(pieces), ' ');
  }

  /** `HandValidator.IsValidHand`: five different pieces, each a card of the deck. A hand is
      valid exactly when its pieces form a set of five cards of the deck; at least five pieces
      are then present, but more are possible when pieces repeat. */
  function IsValidHand(hand: string): (b: bool)
    ensures var cards := ConvertToValidCards(hand);
      b <==> |ToSet(cards)| == 5 && ToSet(cards) <= FullDeck
    ensures b ==> |ConvertToValidCards(hand)| >= 5
  {
    var cards := ConvertToValidCards(hand);
    |Distinct(cards)| == 5 && forall c :: c in cards ==> c in FullDeck
  }

  /** A hand of exactly five pieces that repeats a piece is rejected. */
  lemma RepeatedCardRejected(hand: string, i: nat, j: nat)
    requires |ConvertToValidCards(hand)| == 5
    requires i < j < 5 && ConvertToValidCards(hand)[i] == ConvertToValidCards(hand)[j]
    ensures !IsValidHand(hand)
  {
    RepeatShrinksSet(ConvertToValidCards(hand), i, j);
  }

  // ---------------------------------------------------------------------------
  // Extracting ranks and suits (driver, lines 108-109)
  // ---------------------------------------------------------------------------

  /** The rank and suit columns of deck cards lose nothing: each card is its rank followed by
      its suit, every rank has a value and every suit is one of the four. */
  lemma ColumnsRebuildCards(cards: seq<string>)
    requires forall c :: c in cards ==> c in FullDeck
    ensures forall c :: c in cards ==> |c| == 2
    ensures |Column(cards, 0)| == |Column(cards, 1)| == |cards|
    ensures forall i :: 0 <= i < |cards| ==> cards[i] == [Column(cards, 0)[i], Column(cards, 1)[i]]
    ensures forall r :: r in Column(cards, 0) ==> r in CardValue
    ensures forall s :: s in Column(cards, 1) ==> s in Suits
  {
    FullDeckFacts();
  }

  // ---------------------------------------------------------------------------
  // HandEvaluator
  // ---------------------------------------------------------------------------

  /** The outcome of `EvaluatedHand`: the nine `PokerHand` names, and the high-card text with
      the rank it reports. */
  datatype HandRank =
    | RoyalFlush | StraightFlush | FourOfAKind | FullHouse | Flush | Straight
    | ThreeOfAKind | TwoPairs | OnePair | HighCard(rank: char)

  /** `HandEvaluator`: its read-only `ranks` and `suits`; `rankCount` is derived from `ranks`. */
  datatype HandEvaluator = HandEvaluator(ranks: seq<char>, suits: seq<char>)
  {
    /** Every rank has an entry in `CardValue`, as the lookups in `IsStraight` and the high-card
        ordering need. */
    predicate Known() {
      forall r :: r in ranks ==> r in CardValue
    }

    /** `rankCount.Values`, in enumeration order: one count per different rank, each the
        number of cards of some rank, every rank's count among them, and together as many as
        there are cards. */
    function RankCounts(): (vs: seq<nat>)
      ensures |vs| == |ToSet(ranks)| && Sum(vs) == |ranks|
      ensures forall r :: r in ranks ==> Count(ranks, r) in vs
      ensures forall v :: v in vs ==> exists r :: r in ranks && Count(ranks, r) == v
    {
      GroupCounts(ranks)
    }

    /** `ranks.Select(r => CardCollector.CardValue[r])`. */
    function Values(): seq<int>
      requires Known()
    {
      seq(|ranks|, i requires 0 <= i < |ranks| => CardValue[ranks[i]])
    }

    /** All the cards share one suit. */
    function IsFlush(): (b: bool)
      ensures b <==> suits != [] && forall s :: s in suits ==> s == suits[0]
    {
      SingleElement(suits);
      |Distinct(suits)| == 1
    }

    predicate IsStraight()
      requires Known()
    {
      IsRun(SortBy(Values(), Identity))
    }

    predicate IsRoyalFlush()
      requires Known()
    {
      IsFlush() && IsStraight() && 'A' in ranks && 'K' in ranks
    }

    predicate IsStraightFlush()
      requires Known()
    {
      IsFlush() && IsStraight()
    }

    /** Some rank occurs four times. */
    function IsFourOfAKind(): (b: bool)
      ensures b <==> exists r :: r in ranks && Count(ranks, r) == 4
    {
      4 in RankCounts()
    }

    /** Some rank occurs three times and some rank twice. */
    function IsFullHouse(): (b: bool)
      ensures b <==>
        (exists r :: r in ranks && Count(ranks, r) == 3) &&
        (exists r :: r in ranks && Count(ranks, r) == 2)
    {
      3 in RankCounts() && 2 in RankCounts()
    }

    /** Some rank occurs three times. */
    function IsThreeOfAKind(): (b: bool)
      ensures b <==> exists r :: r in ranks && Count(ranks, r) == 3
    {
      3 in RankCounts()
    }

    /** Exactly two different ranks occur twice each. */
    function IsTwoPairs(): (b: bool)
      ensures b <==> |WithCount(ranks, ranks, 2)| == 2
    {
      CountOfGroupCounts(ranks, 2);
      Count(RankCounts(), 2) == 2
    }

    /** Some rank occurs twice. */
    function IsOnePair(): (b: bool)
      ensures b <==> exists r :: r in ranks && Count(ranks, r) == 2
    {
      2 in RankCounts()
    }

    /** `ranks.OrderByDescending(r => CardValue[r]).First()`. */
    function HighestRank(): (h: char)
      requires Known() && |ranks| > 0
      ensures h in ranks && h in CardValue
      ensures forall r :: r in ranks ==> CardValue[r] <= CardValue[h]
    {
      var sorted := SortBy(ranks, Descending);
      SortBySameElements(ranks, Descending);
      assert sorted[0] in ToSet(sorted);
      assert forall r :: r in ranks ==> -CardValue[sorted[0]] <= -CardValue[r] by {
        forall r | r in ranks ensures -CardValue[sorted[0]] <= -CardValue[r] {
          assert r in multiset(sorted);
          SortedHeadIsLeast(sorted, r, Descending);
        }
      }
      sorted[0]
    }

    /** `EvaluatedHand`: the first test of the ladder Royal flush, straight flush, four of a
        kind, full house, flush, straight, three of a kind, two pairs, one pair that holds, and
        otherwise the high card, a rank of largest value in the hand. */
    function EvaluatedHand(): (h: HandRank)
      requires Known() && |ranks| > 0
      ensures h == RoyalFlush <==> IsFlush() && IsStraight() && 'A' in ranks && 'K' in ranks
      ensures h == StraightFlush <==> IsFlush() && IsStraight() && !('A' in ranks && 'K' in ranks)
      ensures h == FourOfAKind <==> !IsStraightFlush() && IsFourOfAKind()
      ensures h == FullHouse <==> !IsStraightFlush() && !IsFourOfAKind() && IsFullHouse()
      ensures h == Flush <==> IsFlush() && !IsStraight() && !IsFourOfAKind() && !IsFullHouse()
      ensures h == Straight <==>
        !IsFlush() && IsStraight() && !IsFourOfAKind() && !IsFullHouse()
      ensures h == ThreeOfAKind <==>
        !IsFlush() && !IsStraight() && !IsFourOfAKind() && !IsFullHouse() && IsThreeOfAKind()
      ensures h == TwoPairs <==>
        !IsFlush() && !IsStraight() && !IsFourOfAKind() && !IsThreeOfAKind() && IsTwoPairs()
      ensures h == OnePair <==>
        !IsFlush() && !IsStraight() && !IsFourOfAKind() && !IsThreeOfAKind() && !IsTwoPairs() &&
        IsOnePair()
      ensures h.HighCard? <==>
        !IsFlush() && !IsStraight() && !IsFourOfAKind() && !IsThreeOfAKind() && !IsOnePair()
      ensures h.HighCard? ==>
        h.rank in ranks && forall r :: r in ranks ==> CardValue[r] <= CardValue[h.rank]
    {
      if IsRoyalFlush() then RoyalFlush
      else if IsStraightFlush() then StraightFlush
      else if IsFourOfAKind() then FourOfAKind
      else if IsFullHouse() then FullHouse
      else if IsFlush() then Flush
      else if IsStraight() then Straight
      else if IsThreeOfAKind() then ThreeOfAKind
      else if IsTwoPairs() then TwoPairs
      else if IsOnePair() then OnePair
      else HighCard(HighestRank())
    }
  }

  /** The key of `OrderByDescending(r => CardValue[r])`. */
  function Descending(r: char): int
    requires r in CardValue
  {
    -CardValue[r]
  }

  /** `IsStraight` holds exactly when the hand's values are five different numbers whose
      largest exceeds its smallest by four. */
  lemma IsStraightMeaning(e: HandEvaluator)
    requires e.Known()
    ensures e.IsStraight() <==>
      |ToSet(e.Values())| == 5 && Largest(e.Values()) - Smallest(e.Values()) == 4
  {
    SortedRun(e.Values());
  }

  /** The test `IsStraight` applies to the sorted values: five different values, and the last
      exceeds the first by four. */
  predicate IsRun(values: seq<int>) {
    |Distinct(values)| == 5 && values[|values| - 1] - values[0] == 4
  }

  /** The straight test on sorted values, restated on the unsorted values. */
  lemma SortedRun(vs: seq<int>)
    ensures IsRun(SortBy(vs, Identity)) <==>
      (|ToSet(vs)| == 5 && Largest(vs) - Smallest(vs) == 4)
  {
    SortBySameElements(vs, Identity);
    CardAtMostLength(vs);
    if |vs| > 0 {
      SortedEnds(vs);
    }
  }

  /** A royal flush is exactly ten to ace: five different values from 10 to 14. */
  lemma RoyalFlushIsTenToAce(e: HandEvaluator)
    requires e.Known() && |e.ranks| > 0
    requires e.EvaluatedHand() == RoyalFlush
    ensures ToSet(e.Values()) == {10, 11, 12, 13, 14}
  {
    IsStraightMeaning(e);
    AceIsLargest(e);
    FiveInARun(ToSet(e.Values()), 10);
  }

  /** Conversely, ten to ace of one suit is a royal flush. */
  lemma TenToAceSuitedIsRoyalFlush(e: HandEvaluator)
    requires ToSet(e.ranks) == {'T', 'J', 'Q', 'K', 'A'} && e.IsFlush()
    ensures e.Known() && |e.ranks| > 0 && e.EvaluatedHand() == RoyalFlush
  {
    TenToAceIsStraight(e);
    assert 'A' in ToSet(e.ranks) && 'K' in ToSet(e.ranks);
  }

  /** Ten to ace is a straight. */
  lemma TenToAceIsStraight(e: HandEvaluator)
    requires ToSet(e.ranks) == {'T', 'J', 'Q', 'K', 'A'}
    ensures e.Known() && |e.ranks| > 0 && e.IsStraight()
  {
    assert e.Known() by {
      forall r | r in e.ranks ensures r in CardValue {
        assert r in ToSet(e.ranks);
      }
    }
    assert 'A' in ToSet(e.ranks);
    TenToAceValues(e);
    RunFromTen(e.Values());
    IsStraightMeaning(e);
  }

  /** Values making up 10 to 14 have five different values, the largest 14, the smallest 10. */
  lemma RunFromTen(vs: seq<int>)
    requires ToSet(vs) == {10, 11, 12, 13, 14}
    ensures |vs| > 0 && |ToSet(vs)| == 5 && Largest(vs) - Smallest(vs) == 4
  {
    assert forall v :: v in vs ==> 10 <= v <= 14 by {
      forall v | v in vs ensures 10 <= v <= 14 {
        assert v in ToSet(vs);
      }
    }
    assert 10 in ToSet(vs) && 14 in ToSet(vs);
    assert 10 in vs && 14 in vs;
    var hi, lo := Largest(vs), Smallest(vs);
    assert hi == 14;
    assert lo == 10;
    SetOfFiveInts();
  }

  lemma SetOfFiveInts()
    ensures |{10, 11, 12, 13, 14}| == 5
  {
  }

  /** The values of the ranks ten to ace are 10 to 14. */
  lemma TenToAceValues(e: HandEvaluator)
    requires ToSet(e.ranks) == {'T', 'J', 'Q', 'K', 'A'} && e.Known()
    ensures ToSet(e.Values()) == {10, 11, 12, 13, 14}
  {
    var vs := e.Values();
    forall v | v in ToSet(vs) ensures v in {10, 11, 12, 13, 14} {
      var i :| 0 <= i < |vs| && vs[i] == v;
      assert e.ranks[i] in ToSet(e.ranks);
    }
    forall v | v in {10, 11, 12, 13, 14} ensures v in ToSet(vs) {
      var r := if v == 10 then 'T' else if v == 11 then 'J' else if v == 12 then 'Q'
        else if v == 13 then 'K' else 'A';
      assert r in ToSet(e.ranks);
      var i :| 0 <= i < |e.ranks| && e.ranks[i] == r;
      assert vs[i] == v;
    }
  }

  /** A hand holding an ace has 14 as its largest value. */
  lemma AceIsLargest(e: HandEvaluator)
    requires e.Known() && 'A' in e.ranks
    ensures |e.Values()| > 0 && Largest(e.Values()) == 14
  {
    var vs := e.Values();
    CardValueRange();
    var i :| 0 <= i < |e.ranks| && e.ranks[i] == 'A';
    assert vs[i] == 14;
    assert forall k :: 0 <= k < |vs| ==> vs[k] <= 14 by {
      forall k | 0 <= k < |vs| ensures vs[k] <= 14 {
        assert e.ranks[k] in e.ranks;
      }
    }
    assert vs[i] in vs;
    var k :| 0 <= k < |vs| && vs[k] == Largest(vs);
  }

  /** Five different integers within a run of five are the whole run. */
  lemma FiveInARun(S: set<int>, lo: int)
    requires |S| == 5 && forall v :: v in S ==> lo <= v <= lo + 4
    ensures S == {lo, lo + 1, lo + 2, lo + 3, lo + 4}
  {
    var run := {lo, lo + 1, lo + 2, lo + 3, lo + 4};
    assert |run| == 5;
    forall v | v in S ensures v in run {
      assert v == lo || v == lo + 1 || v == lo + 2 || v == lo + 3 || v == lo + 4;
    }
    assert run == S + (run - S);
    assert |run - S| == 0;
  }

  /** The ace-low run A-2-3-4-5 is not a straight here: its values span 2 to 14. */
  lemma WheelIsNotStraight(e: HandEvaluator)
    requires ToSet(e.ranks) == {'2', '3', '4', '5', 'A'}
    ensures e.Known() && !e.IsStraight()
  {
    assert e.Known() by {
      forall r | r in e.ranks ensures r in CardValue {
        assert r in ToSet(e.ranks);
      }
    }
    assert '2' in ToSet(e.ranks) && 'A' in ToSet(e.ranks);
    AceIsLargest(e);
    TwoIsSmallest(e);
    IsStraightMeaning(e);
  }

  /** A hand holding a two has 2 as its smallest value. */
  lemma TwoIsSmallest(e: HandEvaluator)
    requires e.Known() && '2' in e.ranks
    ensures |e.Values()| > 0 && Smallest(e.Values()) == 2
  {
    var vs := e.Values();
    CardValueRange();
    var i :| 0 <= i < |e.ranks| && e.ranks[i] == '2';
    assert vs[i] == 2;
    assert forall k :: 0 <= k < |vs| ==> 2 <= vs[k] by {
      forall k | 0 <= k < |vs| ensures 2 <= vs[k] {
        assert e.ranks[k] in e.ranks;
      }
    }
    assert vs[i] in vs;
    var k :| 0 <= k < |vs| && vs[k] == Smallest(vs);
  }

  // ---------------------------------------------------------------------------
  // The driver's classification step (lines 106-110), without the printing
  // ---------------------------------------------------------------------------

  /** What the driver reports for a hand: "Invalid Hand" or an evaluated rank. */
  datatype Outcome = InvalidHand | Ranked(rank: HandRank)

  /** Take the first and second character of each card as rank and suit, and evaluate them;
      a high card is then the rank of one of the cards, of the largest value among them. */
  function Evaluate(cards: seq<string>): (h: HandRank)
    requires |cards| > 0 && forall c :: c in cards ==> c in FullDeck
    ensures h.HighCard? ==> exists c :: c in cards && |c| == 2 && c[0] == h.rank
    ensures h.HighCard? ==>
      h.rank in CardValue &&
      forall c :: c in cards ==>
        |c| == 2 && c[0] in CardValue && CardValue[c[0]] <= CardValue[h.rank]
  {
    ColumnsRebuildCards(cards);
    var e := HandEvaluator(Column(cards, 0), Column(cards, 1));
    var h := e.EvaluatedHand();
    ColumnMembership(cards, 0);
    assert h.HighCard? ==> h.rank in ToSet(e.ranks);
    assert forall c :: c in cards ==> c[0] in e.ranks by {
      forall c | c in cards ensures c[0] in e.ranks {
        assert c[0] in ToSet(e.ranks);
      }
    }
    h
  }

  /** Validate and, on success, evaluate: a hand is ranked exactly when it is valid, and a high
      card is then the rank of one of its cards, of the largest value among them. */
  function Classify(hand: string): (o: Outcome)
    ensures o.InvalidHand? <==> !IsValidHand(hand)
    ensures o.Ranked? && o.rank.HighCard? ==>
      exists c :: c in ConvertToValidCards(hand) && |c| == 2 && c[0] == o.rank.rank
    ensures o.Ranked? && o.rank.HighCard? ==>
      o.rank.rank in CardValue &&
      forall c :: c in ConvertToValidCards(hand) ==>
        |c| == 2 && c[0] in CardValue && CardValue[c[0]] <= CardValue[o.rank.rank]
  {
    if IsValidHand(hand) then
      var cards := ConvertToValidCards(hand);
      Ranked(Evaluate(cards))
    else
      InvalidHand
  }

  /** A valid hand is ranked by the evaluator built from its rank and suit columns, which
      rebuild its converted cards one by one. */
  lemma ClassifyEvaluatesColumns(hand: string)
    requires IsValidHand(hand)
    ensures var cards := ConvertToValidCards(hand);
      var e := HandEvaluator(Column(cards, 0), Column(cards, 1));
      && |cards| >= 5 && e.Known() && |e.ranks| == |e.suits| == |cards|
      && (forall i :: 0 <= i < |cards| ==> cards[i] == [e.ranks[i], e.suits[i]])
      && Classify(hand) == Ranked(e.EvaluatedHand())
  {
    var cards := ConvertToValidCards(hand);
    ColumnsRebuildCards(cards);
  }
}
