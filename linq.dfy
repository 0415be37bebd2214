/** Models of the .NET string and LINQ operations that both poker programs use:
    `String.Split(char)`, `Enumerable.Distinct`, `GroupBy(...).ToDictionary(...).Values`,
    `OrderBy` / `OrderByDescending`, `Max` / `Min`, `SelectMany` and `ToHashSet`. */
module Linq {

  // ---------------------------------------------------------------------------
  // Sets of elements and duplicates
  // ---------------------------------------------------------------------------

  /** `ToHashSet()`: the set of the elements of `s`. */
  function ToSet<T>(s: seq<T>): set<T> {
    set x | x in s
  }

  /** No element occurs twice in `s`. */
  predicate NoDuplicates<T(==)>(s: seq<T>) {
    forall i, j :: 0 <= i < j < |s| ==> s[i] != s[j]
  }

  lemma ToSetSnoc<T>(s: seq<T>)
    requires s != []
    ensures ToSet(s) == ToSet(s[..|s| - 1]) + {s[|s| - 1]}
  {
    var n := |s| - 1;
    assert s == s[..n] + [s[n]];
  }

  /** A sequence without duplicates has as many distinct elements as entries. */
  lemma {:induction false} NoDuplicatesCard<T>(s: seq<T>)
    requires NoDuplicates(s)
    ensures |ToSet(s)| == |s|
  {
    if s != [] {
      var n := |s| - 1;
      ToSetSnoc(s);
      assert s[n] !in ToSet(s[..n]);
      NoDuplicatesCard(s[..n]);
    }
  }

  /** A sequence never has more distinct elements than entries. */
  lemma {:induction false} CardAtMostLength<T>(s: seq<T>)
    ensures |ToSet(s)| <= |s|
  {
    if s != [] {
      ToSetSnoc(s);
      CardAtMostLength(s[..|s| - 1]);
    }
  }

  lemma SubsetCard<T>(A: set<T>, B: set<T>)
    requires A <= B
    ensures |A| <= |B|
  {
    assert B == A + (B - A);
  }

  /** A sequence has exactly one distinct element when it is non-empty and every entry equals
      the first. */
  lemma SingleElement<T>(s: seq<T>)
    ensures |ToSet(s)| == 1 <==> s != [] && forall x :: x in s ==> x == s[0]
  {
    if s != [] && forall x :: x in s ==> x == s[0] {
      assert ToSet(s) == {s[0]};
    }
    if |ToSet(s)| == 1 {
      assert s[0] in ToSet(s);
      forall x | x in s ensures x == s[0] {
        if x != s[0] {
          assert x in ToSet(s);
          SubsetCard({x, s[0]}, ToSet(s));
        }
      }
    }
  }

  /** A sequence that repeats an entry has fewer distinct elements than entries. */
  lemma RepeatShrinksSet<T>(s: seq<T>, i: nat, j: nat)
    requires i < j < |s| && s[i] == s[j]
    ensures |ToSet(s)| < |s|
  {
    var t := s[..j] + s[j + 1..];
    forall x | x in ToSet(s) ensures x in ToSet(t) {
      var k :| 0 <= k < |s| && s[k] == x;
      if k < j {
        assert t[k] == x;
      } else if k == j {
        assert t[i] == x;
      } else {
        assert t[k - 1] == x;
      }
    }
    CardAtMostLength(t);
    SubsetCard(ToSet(s), ToSet(t));
  }

  /** A sequence with as many distinct elements as entries repeats nothing. */
  lemma FullSetNoDuplicates<T>(s: seq<T>)
    requires |ToSet(s)| == |s|
    ensures NoDuplicates(s)
  {
    forall i, j | 0 <= i < j < |s| ensures s[i] != s[j] {
      if s[i] == s[j] {
        RepeatShrinksSet(s, i, j);
      }
    }
  }

  // ---------------------------------------------------------------------------
  // Enumerable.Distinct and counting
  // ---------------------------------------------------------------------------

  /** `Enumerable.Distinct`: each element once, in order of first occurrence.
      `s.Distinct().Count()` is `|Distinct(s)|`. */
  function Distinct<T(==)>(s: seq<T>): (r: seq<T>)
    ensures ToSet(r) == ToSet(s)
    ensures NoDuplicates(r)
    ensures |r| == |ToSet(s)| <= |s|
  {
    if s == [] then []
    else
      var n := |s| - 1;
      var d := Distinct(s[..n]);
      ToSetSnoc(s);
      NoDuplicatesCard(if s[n] in d then d else d + [s[n]]);
      CardAtMostLength(s);
      if s[n] in d then d else d + [s[n]]
  }

  /** `s.Count(v => v == x)`: the number of occurrences of `x` in `s`, its multiplicity. */
  function Count<T(==)>(s: seq<T>, x: T): (n: nat)
    ensures n == multiset(s)[x]
    ensures n <= |s|
    ensures n > 0 <==> x in s
  {
    if s == [] then 0
    else
      var n := |s| - 1;
      assert s == s[..n] + [s[n]];
      Count(s[..n], x) + (if s[n] == x then 1 else 0)
  }

  lemma CountSnoc<T>(s: seq<T>, y: T, x: T)
    ensures Count(s + [y], x) == Count(s, x) + (if y == x then 1 else 0)
  {
    assert (s + [y])[..|s|] == s;
  }

  /** An element of a duplicate-free sequence occurs in it exactly once. */
  lemma {:induction false} CountNoDuplicates<T>(s: seq<T>, x: T)
    requires NoDuplicates(s)
    ensures Count(s, x) == if x in s then 1 else 0
  {
    if s != [] {
      var n := |s| - 1;
      assert s == s[..n] + [s[n]];
      CountNoDuplicates(s[..n], x);
      assert s[n] !in s[..n];
    }
  }

  /** Three distinct elements occur at most `|s|` times together. */
  lemma {:induction false} CountThree<T>(s: seq<T>, a: T, b: T, c: T)
    requires a != b && b != c && a != c
    ensures Count(s, a) + Count(s, b) + Count(s, c) <= |s|
  {
    if s != [] {
      CountThree(s[..|s| - 1], a, b, c);
    }
  }

  /** Sum of a sequence of naturals. */
  function Sum(vs: seq<nat>): nat {
    if vs == [] then 0 else Sum(vs[..|vs| - 1]) + vs[|vs| - 1]
  }

  /** The counts in `s` of each of `keys`, in the order of `keys`. */
  function CountsOf<T(==)>(keys: seq<T>, s: seq<T>): (vs: seq<nat>)
    ensures |vs| == |keys|
  {
    if keys == [] then [] else CountsOf(keys[..|keys| - 1], s) + [Count(s, keys[|keys| - 1])]
  }

  lemma {:induction false} CountsOfAt<T>(keys: seq<T>, s: seq<T>, i: nat)
    requires i < |keys|
    ensures CountsOf(keys, s)[i] == Count(s, keys[i])
  {
    if i < |keys| - 1 {
      CountsOfAt(keys[..|keys| - 1], s, i);
    }
  }

  /** `s.GroupBy(x => x).ToDictionary(g => g.Key, g => g.Count()).Values`: the size of each
      group, in the dictionary's enumeration order (the order in which the keys first occur).
      Every group is non-empty, every element's count is among them, and together they
      account for every entry of `s`. */
  function GroupCounts<T(==)>(s: seq<T>): (vs: seq<nat>)
    ensures |vs| == |Distinct(s)|
    ensures forall i :: 0 <= i < |vs| ==> vs[i] == Count(s, Distinct(s)[i])
    ensures forall v :: v in vs ==> 1 <= v <= |s|
    ensures forall x :: x in s ==> Count(s, x) in vs
    ensures forall v :: v in vs ==> exists x :: x in s && Count(s, x) == v
    ensures Sum(vs) == |s|
  {
    GroupCountsMembers(s);
    GroupCountsSum(s);
    forall i | 0 <= i < |Distinct(s)|
      ensures CountsOf(Distinct(s), s)[i] == Count(s, Distinct(s)[i])
    {
      CountsOfAt(Distinct(s), s, i);
    }
    CountsOf(Distinct(s), s)
  }

  /** The elements of `keys` that occur exactly `k` times in `s`. */
  function WithCount<T(==)>(keys: seq<T>, s: seq<T>, k: nat): set<T> {
    set x | x in keys && Count(s, x) == k
  }

  /** `GroupCounts(s).Count(v => v == k)` is the number of different elements occurring
      exactly `k` times in `s`. */
  lemma CountOfGroupCounts<T>(s: seq<T>, k: nat)
    ensures Count(GroupCounts(s), k) == |WithCount(s, s, k)|
  {
    var d := Distinct(s);
    CountsOfWithCount(d, s, k);
    forall x ensures x in WithCount(d, s, k) <==> x in WithCount(s, s, k) {
      assert x in d <==> x in ToSet(d);
      assert x in s <==> x in ToSet(s);
    }
    assert WithCount(d, s, k) == WithCount(s, s, k);
  }

  lemma {:induction false} CountsOfWithCount<T>(keys: seq<T>, s: seq<T>, k: nat)
    requires NoDuplicates(keys)
    ensures Count(CountsOf(keys, s), k) == |WithCount(keys, s, k)|
  {
    if keys != [] {
      var n := |keys| - 1;
      var p, y := keys[..n], keys[n];
      assert keys == p + [y];
      CountsOfWithCount(p, s, k);
      assert CountsOf(keys, s) == CountsOf(p, s) + [Count(s, y)];
      CountSnoc(CountsOf(p, s), Count(s, y), k);
      WithCountSnoc(p, y, s, k);
    }
  }

  lemma WithCountSnoc<T>(p: seq<T>, y: T, s: seq<T>, k: nat)
    requires y !in p
    ensures |WithCount(p + [y], s, k)| ==
      |WithCount(p, s, k)| + if Count(s, y) == k then 1 else 0
  {
    var before, after := WithCount(p, s, k), WithCount(p + [y], s, k);
    assert y !in before;
    forall x ensures x in after <==> x in before || (x == y && Count(s, y) == k) {
      assert x in p + [y] <==> x in p || x == y;
    }
    if Count(s, y) == k {
      assert after == before + {y};
    } else {
      assert after == before;
    }
  }

  /** Each count of a distinct key is the positive count of an element, and each element's
      count is among them. */
  lemma GroupCountsMembers<T>(s: seq<T>)
    ensures var vs := CountsOf(Distinct(s), s);
      && (forall v :: v in vs ==> 1 <= v <= |s| && exists x :: x in s && Count(s, x) == v)
      && (forall x :: x in s ==> Count(s, x) in vs)
  {
    var keys := Distinct(s);
    var vs := CountsOf(keys, s);
    forall v | v in vs ensures 1 <= v <= |s| && exists x :: x in s && Count(s, x) == v {
      var i :| 0 <= i < |vs| && vs[i] == v;
      CountsOfAt(keys, s, i);
      assert keys[i] in ToSet(keys);
    }
    forall x | x in s ensures Count(s, x) in vs {
      assert x in ToSet(keys);
      var i :| 0 <= i < |keys| && keys[i] == x;
      CountsOfAt(keys, s, i);
    }
  }

  lemma {:induction false} SumCountsSnoc<T>(keys: seq<T>, s: seq<T>, x: T)
    ensures Sum(CountsOf(keys, s + [x])) == Sum(CountsOf(keys, s)) + Count(keys, x)
  {
    if keys != [] {
      var n := |keys| - 1;
      SumCountsSnoc(keys[..n], s, x);
      CountSnoc(s, x, keys[n]);
    }
  }

  lemma {:induction false} GroupCountsSum<T>(s: seq<T>)
    ensures Sum(CountsOf(Distinct(s), s)) == |s|
  {
    if s != [] {
      var n := |s| - 1;
      var p, x := s[..n], s[n];
      var d := Distinct(p);
      assert s == p + [x];
      GroupCountsSum(p);
      SumCountsSnoc(d, p, x);
      CountNoDuplicates(d, x);
      if x in d {
        assert Distinct(s) == d;
      } else {
        assert Distinct(s) == d + [x];
        assert x !in ToSet(p);
        assert Count(p, x) == 0;
        CountSnoc(p, x, x);
        assert (d + [x])[..|d|] == d;
        assert CountsOf(d + [x], s) == CountsOf(d, s) + [Count(s, x)];
        SumSnoc(CountsOf(d, s), Count(s, x));
      }
    }
  }

  lemma SumSnoc(vs: seq<nat>, v: nat)
    ensures Sum(vs + [v]) == Sum(vs) + v
  {
    assert (vs + [v])[..|vs|] == vs;
  }

  // ---------------------------------------------------------------------------
  // OrderBy: a stable sort on a key
  // ---------------------------------------------------------------------------

  /** Every entry of `s` is in the domain of `key`. */
  ghost predicate Keyed<T>(s: seq<T>, key: T --> int) {
    forall i :: 0 <= i < |s| ==> key.requires(s[i])
  }

  /** The keys of `s` do not decrease. */
  predicate SortedBy<T>(s: seq<T>, key: T --> int)
    requires Keyed(s, key)
  {
    forall i, j :: 0 <= i < j < |s| ==> key(s[i]) <= key(s[j])
  }

  /** Inserts `x` before the first entry whose key is not smaller than `x`'s. */
  function Insert<T>(x: T, s: seq<T>, key: T --> int): (r: seq<T>)
    requires key.requires(x) && Keyed(s, key) && SortedBy(s, key)
    ensures multiset(r) == multiset(s) + multiset{x}
    ensures Keyed(r, key) && SortedBy(r, key)
  {
    if s == [] || key(x) <= key(s[0]) then
      InsertFront(x, s, key);
      [x] + s
    else
      var t := Insert(x, s[1..], key);
      InsertBehind(x, s, t, key);
      [s[0]] + t
  }

  lemma InsertFront<T>(x: T, s: seq<T>, key: T --> int)
    requires key.requires(x) && Keyed(s, key) && SortedBy(s, key)
    requires s == [] || key(x) <= key(s[0])
    ensures Keyed([x] + s, key) && SortedBy([x] + s, key)
  {
    var r := [x] + s;
    forall i, j | 0 <= i < j < |r| ensures key(r[i]) <= key(r[j]) {
      if i == 0 {
        assert r[j] == s[j - 1];
      } else {
        assert r[i] == s[i - 1] && r[j] == s[j - 1];
      }
    }
  }

  lemma InsertBehind<T>(x: T, s: seq<T>, t: seq<T>, key: T --> int)
    requires key.requires(x) && Keyed(s, key) && SortedBy(s, key)
    requires s != [] && key(s[0]) < key(x)
    requires multiset(t) == multiset(s[1..]) + multiset{x}
    requires Keyed(t, key) && SortedBy(t, key)
    ensures multiset([s[0]] + t) == multiset(s) + multiset{x}
    ensures Keyed([s[0]] + t, key) && SortedBy([s[0]] + t, key)
  {
    var r := [s[0]] + t;
    assert s == [s[0]] + s[1..];
    HeadBelowInserted(x, s, t, key);
    forall i, j | 0 <= i < j < |r| ensures key(r[i]) <= key(r[j]) {
      if i == 0 {
        assert r[j] == t[j - 1];
      } else {
        assert r[i] == t[i - 1] && r[j] == t[j - 1];
      }
    }
  }

  /** The head of a sorted list stays below everything once a larger entry is inserted
      into its tail. */
  lemma HeadBelowInserted<T>(x: T, s: seq<T>, t: seq<T>, key: T --> int)
    requires key.requires(x) && Keyed(s, key) && SortedBy(s, key)
    requires s != [] && key(s[0]) < key(x)
    requires multiset(t) == multiset(s[1..]) + multiset{x}
    requires Keyed(t, key)
    ensures forall k :: 0 <= k < |t| ==> key(s[0]) <= key(t[k])
  {
    forall k | 0 <= k < |t| ensures key(s[0]) <= key(t[k]) {
      assert t[k] in multiset(t);
      if t[k] != x {
        assert t[k] in multiset(s[1..]);
        var j :| 0 <= j < |s| - 1 && s[1..][j] == t[k];
        assert s[j + 1] == t[k];
      }
    }
  }

  /** `OrderBy(key)`: an insertion sort. Each entry goes before later entries with an equal key,
      so the sort is stable as `OrderBy` is. */
  function SortBy<T>(s: seq<T>, key: T --> int): (r: seq<T>)
    requires Keyed(s, key)
    ensures multiset(r) == multiset(s)
    ensures Keyed(r, key) && SortedBy(r, key)
  {
    if s == [] then []
    else
      assert s == [s[0]] + s[1..];
      Insert(s[0], SortBy(s[1..], key), key)
  }

  lemma SortBySameElements<T>(s: seq<T>, key: T --> int)
    requires Keyed(s, key)
    ensures ToSet(SortBy(s, key)) == ToSet(s)
    ensures |SortBy(s, key)| == |s|
  {
    var r := SortBy(s, key);
    assert |r| == |multiset(r)| == |multiset(s)| == |s|;
    forall x | x in r ensures x in s {
      assert x in multiset(r);
    }
    forall x | x in s ensures x in r {
      assert x in multiset(s);
    }
  }

  /** `key` tells apart any two elements of its domain. */
  ghost predicate InjectiveKey<T(!new)>(key: T --> int) {
    forall x, y :: key.requires(x) && key.requires(y) && key(x) == key(y) ==> x == y
  }

  /** Two sequences sorted on an injective key and holding the same multiset are equal:
      the sorted order is unique. */
  lemma {:induction false} SortedUnique<T(!new)>(s: seq<T>, t: seq<T>, key: T --> int)
    requires Keyed(s, key) && Keyed(t, key)
    requires SortedBy(s, key) && SortedBy(t, key)
    requires multiset(s) == multiset(t)
    requires InjectiveKey(key)
    ensures s == t
  {
    if s != [] {
      assert |t| == |multiset(t)| == |s|;
      SortedHeadIsLeast(s, t[0], key);
      SortedHeadIsLeast(t, s[0], key);
      assert s[0] == t[0];
      SortedTail(s, key);
      SortedTail(t, key);
      assert multiset(s) == multiset{s[0]} + multiset(s[1..]) by {
        assert s == [s[0]] + s[1..];
      }
      assert multiset(t) == multiset{t[0]} + multiset(t[1..]) by {
        assert t == [t[0]] + t[1..];
      }
      assert multiset(s[1..]) == multiset(s) - multiset{s[0]};
      assert multiset(t[1..]) == multiset(t) - multiset{t[0]};
      SortedUnique(s[1..], t[1..], key);
      assert s == [s[0]] + s[1..] && t == [t[0]] + t[1..];
    }
  }

  lemma SortedTail<T>(s: seq<T>, key: T --> int)
    requires s != [] && Keyed(s, key) && SortedBy(s, key)
    ensures Keyed(s[1..], key) && SortedBy(s[1..], key)
  {
    forall i, j | 0 <= i < j < |s| - 1 ensures key(s[1..][i]) <= key(s[1..][j]) {
      assert s[1..][i] == s[i + 1] && s[1..][j] == s[j + 1];
    }
  }

  lemma SortedHeadIsLeast<T>(s: seq<T>, y: T, key: T --> int)
    requires Keyed(s, key) && SortedBy(s, key)
    requires y in multiset(s)
    ensures key.requires(y) && key(s[0]) <= key(y)
  {
    var j :| 0 <= j < |s| && s[j] == y;
  }

  /** The identity key, for `OrderBy(v => v)`. */
  function Identity(v: int): int {
    v
  }

  // ---------------------------------------------------------------------------
  // Max and Min
  // ---------------------------------------------------------------------------

  /** `Enumerable.Max()` on characters: the ordinal (code point) comparison. */
  function MaxChar(s: seq<char>): (m: char)
    requires |s| > 0
    ensures m in s && forall c :: c in s ==> c <= m
  {
    if |s| == 1 then s[0]
    else
      var m := MaxChar(s[1..]);
      assert s == [s[0]] + s[1..];
      if s[0] > m then s[0] else m
  }

  /** `Enumerable.Min()` on characters: the ordinal (code point) comparison. */
  function MinChar(s: seq<char>): (m: char)
    requires |s| > 0
    ensures m in s && forall c :: c in s ==> m <= c
  {
    if |s| == 1 then s[0]
    else
      var m := MinChar(s[1..]);
      assert s == [s[0]] + s[1..];
      if s[0] < m then s[0] else m
  }

  /** The largest integer of a non-empty sequence. */
  function Largest(s: seq<int>): (m: int)
    requires |s| > 0
    ensures m in s && forall v :: v in s ==> v <= m
  {
    if |s| == 1 then s[0]
    else
      var m := Largest(s[1..]);
      assert s == [s[0]] + s[1..];
      if s[0] > m then s[0] else m
  }

  /** The smallest integer of a non-empty sequence. */
  function Smallest(s: seq<int>): (m: int)
    requires |s| > 0
    ensures m in s && forall v :: v in s ==> m <= v
  {
    if |s| == 1 then s[0]
    else
      var m := Smallest(s[1..]);
      assert s == [s[0]] + s[1..];
      if s[0] < m then s[0] else m
  }

  /** After `OrderBy(v => v)`, `First()` is the minimum and `Last()` the maximum. */
  lemma SortedEnds(s: seq<int>)
    requires |s| > 0
    ensures var t := SortBy(s, Identity);
      |t| == |s| && t[0] == Smallest(s) && t[|t| - 1] == Largest(s)
  {
    var t := SortBy(s, Identity);
    SortBySameElements(s, Identity);
    SortedIntsBetweenEnds(t);
    assert t[0] in ToSet(s) && t[|t| - 1] in ToSet(s);
    assert Smallest(s) in ToSet(t) && Largest(s) in ToSet(t);
  }

  /** Every entry of a sorted list lies between its first and its last. */
  lemma SortedIntsBetweenEnds(t: seq<int>)
    requires |t| > 0 && Keyed(t, Identity) && SortedBy(t, Identity)
    ensures forall v :: v in t ==> t[0] <= v <= t[|t| - 1]
  {
    forall v | v in t ensures t[0] <= v <= t[|t| - 1] {
      var j :| 0 <= j < |t| && t[j] == v;
      assert Identity(t[0]) <= Identity(t[j]) || j == 0;
      assert Identity(t[j]) <= Identity(t[|t| - 1]) || j == |t| - 1;
    }
  }

  /** `cards.Select(c => c[k])`: the `k`-th character of every string. */
  function Column(cards: seq<string>, k: nat): seq<char>
    requires forall c :: c in cards ==> |c| > k
  {
    seq(|cards|, i requires 0 <= i < |cards| => cards[i][k])
  }

  /** The column holds exactly the `k`-th characters of the strings. */
  lemma ColumnMembership(cards: seq<string>, k: nat)
    requires forall c :: c in cards ==> |c| > k
    ensures forall r :: r in ToSet(Column(cards, k)) <==> exists c :: c in cards && c[k] == r
  {
    forall r | r in ToSet(Column(cards, k)) ensures exists c :: c in cards && c[k] == r {
      var i :| 0 <= i < |cards| && Column(cards, k)[i] == r;
      assert cards[i] in cards;
    }
    forall r | exists c :: c in cards && c[k] == r ensures r in ToSet(Column(cards, k)) {
      var c :| c in cards && c[k] == r;
      var i :| 0 <= i < |cards| && cards[i] == c;
      assert Column(cards, k)[i] == r;
    }
  }

  // ---------------------------------------------------------------------------
  // String.Split(char) and its inverse
  // ---------------------------------------------------------------------------

  /** `s.Split(sep)` with no options: the pieces between separators, empty pieces kept,
      so there is always one more piece than separators. */
  function Split(s: string, sep: char): (r: seq<string>)
    ensures |r| >= 1
    ensures forall t :: t in r ==> sep !in t
  {
    if s == [] then [""]
    else
      var rest := Split(s[1..], sep);
      if s[0] == sep then [""] + rest
      else
        assert forall t :: t in rest[1..] ==> t in rest;
        [[s[0]] + rest[0]] + rest[1..]
  }

  /** `String.Join(sep, ts)`. */
  function Join(ts: seq<string>, sep: char): string
    requires |ts| >= 1
  {
    if |ts| == 1 then ts[0] else ts[0] + [sep] + Join(ts[1..], sep)
  }

  /** Joining the pieces again gives back the string that was split. */
  lemma {:induction false} JoinSplit(s: string, sep: char)
    ensures Join(Split(s, sep), sep) == s
  {
    if s != [] {
      var rest := Split(s[1..], sep);
      JoinSplit(s[1..], sep);
      if s[0] != sep {
        var r := Split(s, sep);
        if |rest| == 1 {
          assert r == [[s[0]] + rest[0]];
        } else {
          assert r[1..] == rest[1..];
          assert Join(rest, sep) == rest[0] + [sep] + Join(rest[1..], sep);
        }
      }
    }
  }

  /** Splitting pieces that hold no separator after joining them gives the pieces back. */
  lemma {:induction false} SplitJoin(ts: seq<string>, sep: char)
    requires |ts| >= 1
    requires forall t :: t in ts ==> sep !in t
    ensures Split(Join(ts, sep), sep) == ts
  {
    if |ts| == 1 {
      SplitNoSeparator(ts[0], sep);
    } else {
      SplitJoin(ts[1..], sep);
      SplitPrefix(ts[0], Join(ts[1..], sep), sep);
      assert ts == [ts[0]] + ts[1..];
    }
  }

  lemma {:induction false} SplitNoSeparator(t: string, sep: char)
    requires sep !in t
    ensures Split(t, sep) == [t]
  {
    if t != [] {
      SplitNoSeparator(t[1..], sep);
      assert t == [t[0]] + t[1..];
    }
  }

  lemma {:induction false} SplitPrefix(t: string, u: string, sep: char)
    requires sep !in t
    ensures Split(t + [sep] + u, sep) == [t] + Split(u, sep)
  {
    if t == [] {
      assert t + [sep] + u == [sep] + u;
      assert ([sep] + u)[1..] == u;
    } else {
      SplitPrefix(t[1..], u, sep);
      assert (t + [sep] + u)[1..] == t[1..] + [sep] + u;
      assert t == [t[0]] + t[1..];
    }
  }

  // ---------------------------------------------------------------------------
  // SelectMany over ranks and suits
  // ---------------------------------------------------------------------------

  /** `ss.Select(s => $"{r}{s}")`: the strings `r` followed by each of `ss`. */
  function Row(r: char, ss: seq<char>): (row: seq<string>)
    ensures |row| == |ss|
    ensures forall t :: t in row <==> |t| == 2 && t[0] == r && t[1] in ss
  {
    var row := seq(|ss|, j requires 0 <= j < |ss| => [r, ss[j]]);
    assert forall t :: |t| == 2 && t[0] == r && t[1] in ss ==> t in row by {
      forall t | |t| == 2 && t[0] == r && t[1] in ss ensures t in row {
        var j :| 0 <= j < |ss| && ss[j] == t[1];
        assert row[j] == t;
      }
    }
    row
  }

  /** `rs.SelectMany(r => ss.Select(s => $"{r}{s}"))`: every two-character string with its
      first character from `rs` and its second from `ss`, grouped by the first. */
  function Product(rs: seq<char>, ss: seq<char>): (r: seq<string>)
    ensures |r| == |rs| * |ss|
    ensures forall t :: t in r <==> |t| == 2 && t[0] in rs && t[1] in ss
  {
    if rs == [] then []
    else
      var row := Row(rs[0], ss);
      var rest := Product(rs[1..], ss);
      assert rs == [rs[0]] + rs[1..];
      MulStep(|rs|, |ss|);
      row + rest
  }

  lemma MulStep(a: nat, b: nat)
    requires a > 0
    ensures b + (a - 1) * b == a * b
  {
  }

  /** Distinct ranks and distinct suits give distinct strings. */
  lemma {:induction false} ProductNoDuplicates(rs: seq<char>, ss: seq<char>)
    requires NoDuplicates(rs) && NoDuplicates(ss)
    ensures NoDuplicates(Product(rs, ss))
  {
    if rs != [] {
      ProductNoDuplicates(rs[1..], ss);
      var row := Row(rs[0], ss);
      var rest := Product(rs[1..], ss);
      assert Product(rs, ss) == row + rest;
      assert rs[0] !in rs[1..];
      assert NoDuplicates(row) by {
        forall i, j | 0 <= i < j < |row| ensures row[i] != row[j] {
          assert row[i][1] == ss[i] && row[j][1] == ss[j];
        }
      }
      forall x | x in row ensures x !in rest {
        RowNotInRest(rs, ss, x);
      }
      NoDuplicatesAppend(row, rest);
    }
  }

  /** Two lists without repeats and without a common entry make a list without repeats. */
  lemma NoDuplicatesAppend<T>(a: seq<T>, b: seq<T>)
    requires NoDuplicates(a) && NoDuplicates(b)
    requires forall x :: x in a ==> x !in b
    ensures NoDuplicates(a + b)
  {
    var r := a + b;
    forall i, j | 0 <= i < j < |r| ensures r[i] != r[j] {
      if j < |a| {
        assert r[i] == a[i] && r[j] == a[j];
      } else if i < |a| {
        assert r[i] == a[i] && r[j] == b[j - |a|];
        assert a[i] in a;
      } else {
        assert r[i] == b[i - |a|] && r[j] == b[j - |a|];
      }
    }
  }

  /** A string of the first row never reappears in the rows of the later ranks. */
  lemma RowNotInRest(rs: seq<char>, ss: seq<char>, x: string)
    requires rs != [] && rs[0] !in rs[1..] && x in Row(rs[0], ss)
    ensures x !in Product(rs[1..], ss)
  {
  }

  /** `K.SelectMany(r => ss.Select(s => $"{r}{s}")).ToHashSet()`: the set of two-character
      strings made of a key of `K` followed by one of `ss`. */
  function Cards(K: set<char>, ss: seq<char>): set<string> {
    set r, s | r in K && s in ss :: [r, s]
  }

  lemma CardsMembership(K: set<char>, ss: seq<char>)
    ensures forall t :: t in Cards(K, ss) <==> |t| == 2 && t[0] in K && t[1] in ss
  {
    forall t | |t| == 2 && t[0] in K && t[1] in ss ensures t in Cards(K, ss) {
      assert t == [t[0], t[1]];
    }
  }

  /** Enumerating `K` without repetition, as `rs` does, and pairing with distinct `ss` gives
      `|K| * |ss|` different strings. */
  lemma CardsSize(K: set<char>, rs: seq<char>, ss: seq<char>)
    requires ToSet(rs) == K && NoDuplicates(rs) && NoDuplicates(ss)
    ensures |Cards(K, ss)| == |rs| * |ss|
  {
    var p := Product(rs, ss);
    CardsMembership(K, ss);
    assert Cards(K, ss) == ToSet(p);
    ProductNoDuplicates(rs, ss);
    NoDuplicatesCard(p);
  }
}
