# Poker hand classifier, modelled in Dafny

The repository classifies five-card poker hands written as text, such as `"Ah Kd Td 5c 2h"`.
Each card is a rank character (`2`-`9`, `T`, `J`, `Q`, `K`, `A`) followed by a suit
character (`h`, `d`, `c`, `s`). It does so twice, in two independent programs, and this
project models each program as written, in its own module:

- `Poker` (`poker.dfy`) models `Poker/Program.cs`:
  - the card table and the 52-card deck (`CardCollector`);
  - the validator, which rewrites "10" to "T", splits at spaces and demands five different
    deck cards (`HandValidator`);
  - the evaluator, which counts ranks and runs the first-match ladder from royal flush down to
    high card (`HandEvaluator`);
  - the validate, extract and evaluate step of the driver.

  Everything there is a pure expression, so it is modelled with functions over datatypes. The
  evaluator's `ranks` and `suits` are read-only fields set once by the constructor, so
  `HandEvaluator` is a datatype: evaluation cannot change them.
- `TestProgram` (`test_program.dfy`) models `Test/Program.cs`:
  - its own card table;
  - `GenerateDeck`, which fills a set with two nested loops and is modelled as a method with
    loop invariants;
  - `IsLowStraight`;
  - `DetermineHandRank`, which returns the program's exact texts, "Straigth" included.

  This program does no "10" rewrite. It recognises the ace-low straight. It calls two
  different ranks "Four of a Kind". It takes `ranks.Max()` and `ranks.Min()` by character
  code, where the digits sort before `A` < `J` < `K` < `Q` < `T`.
- `Linq` (`linq.dfy`) holds the .NET operations both programs use, each with its meaning as a
  contract:
  - `Split` and its inverse `Join`;
  - `Distinct`;
  - `Count`;
  - the group sizes of `GroupBy(...).ToDictionary(...).Values`;
  - `OrderBy`, as a stable insertion sort on a key;
  - `Max` and `Min` of characters;
  - the rank × suit product of `SelectMany`.
- `Comparison` (`comparison.dfy`) states where the two validity tests agree and where they part.

Strings are `seq<char>`. Dafny orders characters by code, like the ordinal comparison of C#
`char`, which `Test/Program.cs` depends on.

What the two programs do with some hands:

- `"Ah Kh Qh Jh Th"`: `Poker` reports a royal flush (`TenToAceSuitedIsRoyalFlush`), while
  `Test` reports "Flush" (`TenToAceSuitedIsFlush`).
- A suited `2 3 4 5 A` is the only "Royal Flush" of `Test` (`RoyalFlushIsSuitedLowStraight`),
  and `Poker` sees no straight in it (`WheelIsNotStraight`).
- `"2h 2d 2c 4s 4h"`: `Test` says "Four of a Kind" (`TwoRanksAreFourOfAKind`), and its
  "Full House" needs at least six pieces (`FullHouseNeedsRepeatedPiece`).
- `"Ah Kd 10d 5c 2h"`: only `Poker` accepts it (`TenSpellingValidInPoker`,
  `TenSpellingInvalidInTest`).
- `"6h 6h 6d 6s 6c"` and `"4d 4d 5c 2h 8s"`: both programs reject them
  (`BothRejectRepeatedPiece`).

Where the code departs from the usual rules of poker, the model follows the code:

- `Poker` has no ace-low straight.
- A hand of six pieces that repeats one is accepted by both programs: only the number of
  *different* pieces is checked.
- `Test` calls the suited ace-low straight a "Royal Flush" and suited ten to ace a "Flush".

## Model

| member | source | states |
|---|---|---|
| Linq.Split | Poker/Program.cs:76 | `Split(' ')` gives at least one piece and no piece holds the separator |
| Linq.JoinSplit | Poker/Program.cs:76 | joining the pieces with the separator gives the string back |
| Linq.SplitJoin | Test/Program.cs:36 | splitting pieces that hold no separator, once joined, gives the same pieces |
| Linq.Distinct | Poker/Program.cs:41 | `Distinct()` keeps the same elements, none twice, so `Distinct().Count()` is the number of different elements |
| Linq.Count | Poker/Program.cs:53 | `Count(v => v == x)` is the multiplicity of `x` in the sequence: at most its length, and positive exactly when `x` occurs |
| Linq.CountThree | Test/Program.cs:45 | three different elements occur at most as often together as the sequence is long |
| Linq.GroupCounts | Poker/Program.cs:39 | `rankCount.Values` has one entry per different element, in order of first occurrence, and each entry is the number of occurrences of its element; so each is between 1 and the length, every element's count is among them, and they sum to the length |
| Linq.CountOfGroupCounts | Poker/Program.cs:53 | the number of entries equal to `k` in `rankCount.Values` is the number of different elements occurring exactly `k` times |
| Linq.SortBy | Poker/Program.cs:45 | `OrderBy` returns a permutation of its input, in non-decreasing key order |
| Linq.SortBySameElements | Test/Program.cs:42 | sorting keeps the set of elements and the length |
| Linq.SortedUnique | Test/Program.cs:42 | two lists sorted on an injective key with the same elements are equal, so the sorted ranks are determined by the hand's ranks |
| Linq.SortedEnds | Poker/Program.cs:46 | after sorting numbers, the first is the smallest and the last the largest |
| Linq.MaxChar | Test/Program.cs:60 | `ranks.Max()` is a rank of the list, no character of the list is larger |
| Linq.MinChar | Test/Program.cs:48 | `ranks.Min()` is a rank of the list, no character of the list is smaller |
| Linq.Product | Poker/Program.cs:26 | `SelectMany` over ranks and suits yields every rank-suit string and nothing else, one per pair |
| Linq.ProductNoDuplicates | Poker/Program.cs:26 | with distinct ranks and suits, the product repeats no card |
| Linq.CardsMembership | Poker/Program.cs:26 | the deck set holds exactly the two-character strings of a rank followed by a suit |
| Linq.CardsSize | Poker/Program.cs:26 | the deck set has as many cards as ranks times suits |
| Poker.CardValueKeys | Poker/Program.cs:18-22 | the table's keys are exactly the 13 ranks 2-9, T, J, Q, K, A |
| Poker.CardValueRange | Poker/Program.cs:18-22 | the ranks in table order are worth 2, 3, ..., 14, and every value lies in 2..14 |
| Poker.CardValueInjective | Poker/Program.cs:18-22 | different ranks have different values |
| Poker.RankKeysEnumerateKeys | Poker/Program.cs:18-22 | the key enumeration lists every key once |
| Poker.FullDeckFacts | Poker/Program.cs:24-26 | `FullDeck` holds exactly the strings of a known rank followed by one of h, d, c, s, and there are 52 |
| Poker.ReplaceTen | Poker/Program.cs:76 | `Replace("10", "T")` never lengthens the string and brings in no character other than 'T' |
| Poker.ReplaceTenRemovesAll | Poker/Program.cs:76 | no "10" survives `Replace("10", "T")` |
| Poker.ReplaceTenKeepsOthers | Poker/Program.cs:76 | a string without "10" is left unchanged |
| Poker.ReplaceTenIdempotent | Poker/Program.cs:76 | replacing twice is replacing once |
| Poker.ReplaceTenAroundSpace | Poker/Program.cs:76 | the rewrite never crosses a space |
| Poker.ConvertToValidCards | Poker/Program.cs:75-76 | the pieces, joined by spaces, are the hand with every "10" rewritten to "T"; no piece holds a space or "10" |
| Poker.ConvertToValidCardsPerPiece | Poker/Program.cs:75-76 | the converted cards are the hand's space-separated pieces, each rewritten on its own, so "10d" becomes "Td" |
| Poker.IsValidHand | Poker/Program.cs:78-79 | a hand is valid exactly when its converted pieces form a set of five deck cards; a valid hand has at least five pieces, and may have more |
| Poker.RepeatedCardRejected | Poker/Program.cs:78-79 | five pieces with a repeat are rejected |
| Poker.ColumnsRebuildCards | Poker/Program.cs:108-109 | for deck cards, the extracted rank and suit lists have one entry per card, rebuild each card, and hold known ranks and suits |
| Poker.HandEvaluator.HighestRank | Poker/Program.cs:68 | `OrderByDescending(...).First()` is a rank of the hand of largest value |
| Poker.HandEvaluator.RankCounts | Poker/Program.cs:39 | `rankCount.Values` has one count per different rank, each the number of cards of some rank, every rank's count among them, summing to the number of cards |
| Poker.HandEvaluator.IsFlush | Poker/Program.cs:41 | a flush exactly when there are cards and all share the first card's suit |
| Poker.HandEvaluator.IsFourOfAKind | Poker/Program.cs:50 | exactly when some rank occurs four times |
| Poker.HandEvaluator.IsFullHouse | Poker/Program.cs:51 | exactly when some rank occurs three times and some rank twice |
| Poker.HandEvaluator.IsThreeOfAKind | Poker/Program.cs:52 | exactly when some rank occurs three times |
| Poker.HandEvaluator.IsTwoPairs | Poker/Program.cs:53 | exactly when two different ranks occur exactly twice each |
| Poker.HandEvaluator.IsOnePair | Poker/Program.cs:54 | exactly when some rank occurs twice |
| Poker.HandEvaluator.EvaluatedHand | Poker/Program.cs:56-69 | each of the ten outcomes exactly when its own test holds and every earlier test of the ladder fails: royal flush (flush, straight, A and K), straight flush, four of a kind, full house, flush, straight, three of a kind, two pairs, one pair; the high card names a rank of largest value |
| Poker.IsStraightMeaning | Poker/Program.cs:43-47 | `IsStraight` holds exactly when the values are five different numbers whose largest exceeds the smallest by 4 |
| Poker.SortedRun | Poker/Program.cs:45-46 | the test on the sorted values equals the same test on the unsorted values |
| Poker.RoyalFlushIsTenToAce | Poker/Program.cs:48 | a royal flush has exactly the values 10 to 14 |
| Poker.TenToAceSuitedIsRoyalFlush | Poker/Program.cs:59 | ranks T, J, Q, K, A in one suit evaluate to a royal flush |
| Poker.TenToAceIsStraight | Poker/Program.cs:43-47 | ranks T, J, Q, K, A form a straight |
| Poker.WheelIsNotStraight | Poker/Program.cs:43-47 | ranks 2, 3, 4, 5, A are not a straight: there is no ace-low case |
| Poker.AceIsLargest | Poker/Program.cs:45-46 | with an ace in the hand, the largest value is 14 |
| Poker.FiveInARun | Poker/Program.cs:46 | five different values within a span of four are the whole run |
| Poker.Evaluate | Poker/Program.cs:108-110 | evaluating the ranks and suits taken from deck cards gives a high card, if any, that is the rank of one of the cards and of the largest value among them |
| Poker.Classify | Poker/Program.cs:106-110 | the driver ranks a hand exactly when it is valid, and a high card is the rank of one of its cards, of the largest value among them |
| Poker.ClassifyEvaluatesColumns | Poker/Program.cs:106-110 | a valid hand has at least five cards, its rank and suit columns rebuild each card, and its outcome is the evaluator's verdict on those columns |
| TestProgram.SameTableAsPoker | Test/Program.cs:8-11 | the second table, its suits and its deck equal the first program's |
| TestProgram.FullDeckFacts | Test/Program.cs:32 | `FullDeck` holds exactly the strings of a known rank followed by a suit, 52 of them |
| TestProgram.GenerateDeck | Test/Program.cs:13-24 | the nested loops build exactly the deck, 52 cards |
| TestProgram.CardsAddSuit | Test/Program.cs:19-20 | one more suit for a rank adds exactly that card |
| TestProgram.CardsAddRank | Test/Program.cs:18-21 | one more rank adds exactly that rank's cards |
| TestProgram.LowStraightIsEqual | Test/Program.cs:26-30 | the element-by-element comparison holds exactly when the list is 2, 3, 4, 5, A |
| TestProgram.LowStraightOfSortedRanks | Test/Program.cs:26-30 | ranks sorted by value are the list 2, 3, 4, 5, A exactly when the hand's ranks are those five in any order |
| TestProgram.SortedRanks | Test/Program.cs:42 | the sorted ranks are a permutation of the cards' first characters, all known ranks, in non-decreasing order of value |
| TestProgram.HandRanks | Test/Program.cs:42 | the i-th entry is the first character of the i-th card, a known rank |
| TestProgram.HandSuits | Test/Program.cs:43 | the i-th entry is the second character of the i-th card, one of the four suits |
| TestProgram.IsValidCards | Test/Program.cs:38 | the pieces pass exactly when they form a set of five deck cards, and there are then at least five pieces |
| TestProgram.IsFlush | Test/Program.cs:47 | `isFlush` exactly when there are cards and all share the first card's suit |
| TestProgram.IsStraigth | Test/Program.cs:48 | `isStraigth` exactly when there are five different ranks and either the character-largest and character-smallest are worth four apart or the list is 2, 3, 4, 5, A |
| TestProgram.TextInjective | Test/Program.cs:39-60 | different outcomes return different texts, and exactly the high-card outcome returns "High Card: " and its rank |
| TestProgram.Ladder | Test/Program.cs:50-60 | the chain never says "Invalid Hand", and its high card is a rank of the hand no smaller, as a character, than any other |
| TestProgram.Classify | Test/Program.cs:34-62 | the verdict is invalid exactly when the pieces are not five different deck cards; a high card is the character-largest first character of the pieces |
| TestProgram.DetermineHandRank | Test/Program.cs:34-62 | "Invalid Hand" exactly when the space-split pieces are not five different deck cards (no "10" rewrite); a "High Card: " text names the character-largest rank, a rank of the hand |
| TestProgram.FirstTrueBranch | Test/Program.cs:50-60 | on the sorted ranks and suits, each of the ten verdicts exactly when its own test holds and every earlier test fails: royal flush (flush, straight, character-largest rank worth 14), straight flush, two different ranks as "Four of a Kind", full house, flush, straight, three of a kind, two pairs, one pair, high card |
| TestProgram.ChainFirstTrue | Test/Program.cs:50-60 | on the values computed before it, the chain returns each of the ten verdicts exactly when its own test holds and every earlier test fails |
| TestProgram.CountsOfDifferentRanks | Test/Program.cs:45 | ranks that are all different each count once |
| TestProgram.LowStraightHand | Test/Program.cs:48-55 | a valid hand with ranks 2, 3, 4, 5, A is "Royal Flush" in one suit and "Straigth" otherwise |
| TestProgram.RoyalFlushIsSuitedLowStraight | Test/Program.cs:48-50 | "Royal Flush" is returned exactly for a valid suited hand with ranks 2, 3, 4, 5, A |
| TestProgram.RoyalNeedsLowStraight | Test/Program.cs:48-50 | straight ranks whose character-largest rank is worth 14 are 2, 3, 4, 5, A |
| TestProgram.TwoRanksAreFourOfAKind | Test/Program.cs:52 | any valid hand with exactly two different ranks is "Four of a Kind" |
| TestProgram.FullHouseNeedsRepeatedPiece | Test/Program.cs:52-53 | "Full House" is returned only for more than five pieces, so never for five different cards |
| TestProgram.ThreeRanksOfFullHouse | Test/Program.cs:53 | three of one rank, two of another and a third rank need six entries |
| TestProgram.TenToAceSuitedIsFlush | Test/Program.cs:48-54 | five cards T, J, Q, K, A in one suit give "Flush", not a straight |
| TestProgram.TenToAceIsNoStraight | Test/Program.cs:48 | ranks T, J, Q, K, A fail the straight test, since their character-largest is T and smallest is A |
| Comparison.BothRejectRepeatedPiece | Test/Program.cs:38 | five space-separated pieces with a repeat are rejected by both programs |
| Comparison.SameValidityWithoutTen | Test/Program.cs:38 | on a hand without "10" the two validity tests agree |
| Comparison.TenSpellingInvalidInTest | Test/Program.cs:36-40 | a piece holding a '1', such as "10d", makes the hand invalid in the second program |
| Comparison.TenSpellingValidInPoker | Poker/Program.cs:75-79 | the first program judges a hand as it judges the hand with "10" spelled "T" |

## Left out

- `Poker.HandEvaluator.EvaluatedHand` and `Poker.HandEvaluator.HighestRank` require a
  non-empty hand of known ranks, and `Poker.HandEvaluator.IsStraight` known ranks. In C# an
  unknown rank would throw at `CardValue[r]` (line 45 or 68) and an empty hand at `First()`
  (line 68); the driver evaluates only hands that passed `IsValidHand`, which guarantees
  both, so these exception paths are not modelled.
- `TestProgram.Ladder` requires a non-empty list of known ranks for the same reason: an
  unknown rank would throw at `CardValue[r]` (line 42) and an empty list at `Max()`
  (line 60), but the chain runs only after the validity test of line 38.
- The two `Main` drivers, their example lists and the console output are not modelled. They
  are input and output only. `Poker.Classify` models the driver's validate, extract and
  evaluate step.
- `PokerHand` and its `ToString()` are not modelled. `HandRank` names the evaluator's outcomes
  instead, with a `HighCard` case carrying the reported rank, since the enum has none.
- `Dictionary` and `HashSet` hashing are not modelled:
  - The deck is a Dafny `set`.
  - `rankCount.Values` is modelled as the group sizes listed in order of first occurrence.
    Only membership and the number of 2s are read from it, and neither depends on the order.
- `GenerateDeck` iterates the keys of the table as a set, in an unspecified order. The .NET
  dictionary happens to enumerate them in insertion order; the result is the same set either
  way.
- `OrderBy` is modelled by a stable insertion sort on the key, and `OrderByDescending(...)
  .First()` by the first element of that sort on the negated value. LINQ's laziness is not
  modelled.
- `Linq.Split` models `string.Split(char)` with no options: empty pieces are kept.
- The unused `System.ComponentModel` and `System.Diagnostics` imports of `Test/Program.cs` are
  not modelled.
