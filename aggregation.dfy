/**
 * The vote aggregator: reduces the cards the players of a session hold
 * (one nullable card text per player, in row order) to a single integer,
 * under one of five voting modes. `-1` means "no consensus" and `0` means
 * "no votes to count".
 */
module Aggregation {

  import opened Options
  import opened Decimal

  datatype Mode = Strict | Median | Average | MajorityAbs | MajorityRel

  /** The text a session stores in `mode_de_jeu` for each mode. */
  function ModeName(m: Mode): (name: string)
    ensures ModeOf(name) == m
  {
    match m
    case Strict => "strict"
    case Median => "median"
    case Average => "average"
    case MajorityAbs => "majority_abs"
    case MajorityRel => "majority_rel"
  }

  /** The mode a stored `mode_de_jeu` selects; any unrecognised text selects the average. */
  function ModeOf(name: string): Mode {
    if name == "strict" then Strict
    else if name == "median" then Median
    else if name == "majority_abs" then MajorityAbs
    else if name == "majority_rel" then MajorityRel
    else Average
  }

  /** One player's `carte_choisie`: `None` until the player votes. */
  type Vote = Option<string>

  const NoConsensus: int := -1
  const NoVotes: int := 0

  // ----- Gathering the votes -----

  /** The cards actually played: the non-null votes, in row order. */
  function Submitted(votes: seq<Vote>): (cards: seq<string>)
    ensures |cards| <= |votes|
  {
    if votes == [] then []
    else
      var prefix := votes[..|votes| - 1];
      match votes[|votes| - 1]
      case None => Submitted(prefix)
      case Some(c) => Submitted(prefix) + [c]
  }

  /** Each card is played exactly as many times as players hold it. */
  lemma {:induction false} SubmittedKeepsCounts(votes: seq<Vote>)
    ensures forall c :: multiset(Submitted(votes))[c] == multiset(votes)[Some(c)]
  {
    if votes != [] {
      var prefix := votes[..|votes| - 1];
      assert votes == prefix + [votes[|votes| - 1]];
      SubmittedKeepsCounts(prefix);
    }
  }

  /** What a single card is worth as a result: its number, or -1 for a card that is not a number. */
  function CardValue(card: string): (v: int)
    ensures v >= NoConsensus
    ensures IsNumeral(card) <==> v >= 0
    ensures IsNumeral(card) ==> v == Value(card)
  {
    if IsNumeral(card) then Value(card) else NoConsensus
  }

  /** The numeric cards read as integers, in row order; "coffee" and "?" are dropped. */
  function Numbers(cards: seq<string>): (xs: seq<int>)
    ensures |xs| <= |cards|
    ensures forall i :: 0 <= i < |xs| ==> xs[i] >= 0
    ensures xs == [] <==> forall c :: c in cards ==> !IsNumeral(c)
  {
    if cards == [] then []
    else
      var prefix := cards[..|cards| - 1];
      var last := cards[|cards| - 1];
      assert forall c :: c in cards <==> c in prefix || c == last;
      if IsNumeral(last) then Numbers(prefix) + [Value(last)] else Numbers(prefix)
  }

  /** The numeric votes of two runs of cards are those of each run, in order. */
  lemma {:induction false} NumbersOfConcat(a: seq<string>, b: seq<string>)
    ensures Numbers(a + b) == Numbers(a) + Numbers(b)
  {
    if b == [] {
      assert a + b == a;
    } else {
      var prefix := b[..|b| - 1];
      assert (a + b)[..|a + b| - 1] == a + prefix;
      assert (a + b)[|a + b| - 1] == b[|b| - 1];
      NumbersOfConcat(a, prefix);
    }
  }

  /** One card contributes its value if it is a number, and nothing otherwise. */
  lemma NumbersOfCard(c: string)
    ensures Numbers([c]) == (if IsNumeral(c) then [Value(c)] else [])
  {
    assert [c][..0] == [];
  }

  // ----- Rounding (Python's round: halves go to the even neighbour) -----

  function Abs(x: int): nat {
    if x < 0 then -x else x
  }

  /** p / q rounded to the nearest integer, a tie going to the even one. */
  function RoundHalfEven(p: int, q: int): (r: int)
    requires q > 0
    ensures 2 * Abs(p - r * q) <= q
    ensures 2 * Abs(p - r * q) == q ==> r % 2 == 0
  {
    var f, m := p / q, p % q;
    if 2 * m < q then f
    else if 2 * m > q then f + 1
    else if f % 2 == 0 then f
    else f + 1
  }

  /** Multiplying by a non-negative number keeps the gap between two integers at least as wide. */
  lemma MulGap(a: int, b: int, k: nat, q: nat)
    requires a + k <= b
    ensures a * q + k * q <= b * q
  {
    assert (b - a - k) * q >= 0;
    assert (b - a - k) * q == b * q - a * q - k * q;
  }

  /** Two multiples of q at least q apart cannot both be within q/2 of p, unless both are ties. */
  lemma FarApartMeansTies(p: int, q: int, a: int, b: int)
    requires q > 0 && a >= b + q
    requires 2 * Abs(p - a) <= q && 2 * Abs(p - b) <= q
    ensures a == b + q && 2 * Abs(p - a) == q && 2 * Abs(p - b) == q
  {
  }

  /** Of two nearest integers of p / q that both send ties to the even side, neither exceeds the other. */
  lemma NearestNotAbove(p: int, q: int, r: int, r0: int)
    requires q > 0
    requires 2 * Abs(p - r * q) <= q && (2 * Abs(p - r * q) == q ==> r % 2 == 0)
    requires 2 * Abs(p - r0 * q) <= q && (2 * Abs(p - r0 * q) == q ==> r0 % 2 == 0)
    ensures r <= r0
  {
    if r > r0 {
      var a, b := r * q, r0 * q;
      if r >= r0 + 2 {
        MulGap(r0, r, 2, q);
        FarApartMeansTies(p, q, a, b);
      } else {
        MulGap(r0, r, 1, q);
        FarApartMeansTies(p, q, a, b);
      }
    }
  }

  /** There is only one nearest integer with ties to even: RoundHalfEven is it. */
  lemma RoundingIsUnique(p: int, q: int, r: int)
    requires q > 0
    requires 2 * Abs(p - r * q) <= q
    requires 2 * Abs(p - r * q) == q ==> r % 2 == 0
    ensures r == RoundHalfEven(p, q)
  {
    var r0 := RoundHalfEven(p, q);
    NearestNotAbove(p, q, r, r0);
    NearestNotAbove(p, q, r0, r);
  }

  // ----- Sorting and counting, for the median -----

  predicate IsSorted(s: seq<int>) {
    forall i, j :: 0 <= i < j < |s| ==> s[i] <= s[j]
  }

  lemma SortedCons(h: int, t: seq<int>)
    requires IsSorted(t)
    requires forall i :: 0 <= i < |t| ==> h <= t[i]
    ensures IsSorted([h] + t)
  {
  }

  function Insert(x: int, s: seq<int>): (r: seq<int>)
    requires IsSorted(s)
    ensures IsSorted(r)
    ensures multiset(r) == multiset(s) + multiset{x}
  {
    if s == [] then [x]
    else if x <= s[0] then
      SortedCons(x, s);
      [x] + s
    else
      var tail := Insert(x, s[1..]);
      assert s == [s[0]] + s[1..];
      assert forall i :: 0 <= i < |tail| ==> s[0] <= tail[i] by {
        forall i | 0 <= i < |tail| ensures s[0] <= tail[i] {
          assert tail[i] in multiset(s[1..]) + multiset{x};
        }
      }
      SortedCons(s[0], tail);
      [s[0]] + tail
  }

  /** The votes in ascending order, as `sorted` gives them. */
  function SortAscending(xs: seq<int>): (s: seq<int>)
    ensures IsSorted(s)
    ensures multiset(s) == multiset(xs)
  {
    if xs == [] then []
    else
      assert xs == [xs[0]] + xs[1..];
      Insert(xs[0], SortAscending(xs[1..]))
  }

  /** Sorting votes that are already in order leaves them as they are. */
  lemma {:induction false} SortKeepsSortedVotes(xs: seq<int>)
    requires IsSorted(xs)
    ensures SortAscending(xs) == xs
  {
    if xs != [] {
      SortKeepsSortedVotes(xs[1..]);
      assert xs == [xs[0]] + xs[1..];
    }
  }

  /** How many of the votes are strictly below v. */
  function CountBelow(xs: seq<int>, v: int): (n: nat)
    ensures n <= |xs|
  {
    if xs == [] then 0 else (if xs[0] < v then 1 else 0) + CountBelow(xs[1..], v)
  }

  /** How many of the votes are strictly above v. */
  function CountAbove(xs: seq<int>, v: int): (n: nat)
    ensures n <= |xs|
  {
    if xs == [] then 0 else (if xs[0] > v then 1 else 0) + CountAbove(xs[1..], v)
  }

  lemma {:induction false} CountBelowAfterInsert(x: int, s: seq<int>, v: int)
    requires IsSorted(s)
    ensures CountBelow(Insert(x, s), v) == CountBelow(s, v) + (if x < v then 1 else 0)
  {
    var r := Insert(x, s);
    if s == [] {
      assert r[1..] == [];
    } else if x <= s[0] {
      assert r[1..] == s;
    } else {
      CountBelowAfterInsert(x, s[1..], v);
      assert r[0] == s[0] && r[1..] == Insert(x, s[1..]);
    }
  }

  lemma {:induction false} CountAboveAfterInsert(x: int, s: seq<int>, v: int)
    requires IsSorted(s)
    ensures CountAbove(Insert(x, s), v) == CountAbove(s, v) + (if x > v then 1 else 0)
  {
    var r := Insert(x, s);
    if s == [] {
      assert r[1..] == [];
    } else if x <= s[0] {
      assert r[1..] == s;
    } else {
      CountAboveAfterInsert(x, s[1..], v);
      assert r[0] == s[0] && r[1..] == Insert(x, s[1..]);
    }
  }

  /** Sorting does not change how many votes lie below or above a value. */
  lemma {:induction false} CountsAfterSort(xs: seq<int>, v: int)
    ensures CountBelow(SortAscending(xs), v) == CountBelow(xs, v)
    ensures CountAbove(SortAscending(xs), v) == CountAbove(xs, v)
  {
    if xs != [] {
      CountsAfterSort(xs[1..], v);
      CountBelowAfterInsert(xs[0], SortAscending(xs[1..]), v);
      CountAboveAfterInsert(xs[0], SortAscending(xs[1..]), v);
    }
  }

  /** In a sorted list, nothing from position k on is below a value at most s[k]. */
  lemma {:induction false} SortedBelowAtMost(s: seq<int>, v: int, k: nat)
    requires IsSorted(s) && k <= |s|
    requires k < |s| ==> v <= s[k]
    ensures CountBelow(s, v) <= k
  {
    if s != [] {
      if k == 0 {
        SortedBelowAtMost(s[1..], v, 0);
      } else {
        SortedBelowAtMost(s[1..], v, k - 1);
      }
    }
  }

  /** In a sorted list, nothing before position k is above a value at least s[k-1]. */
  lemma {:induction false} SortedAboveAtMost(s: seq<int>, v: int, k: nat)
    requires IsSorted(s) && k <= |s|
    requires k > 0 ==> s[k - 1] <= v
    ensures CountAbove(s, v) <= |s| - k
  {
    if k > 0 {
      SortedAboveAtMost(s[1..], v, k - 1);
    }
  }

  /** In a sorted list, everything from position k on is above a value below s[k]. */
  lemma {:induction false} SortedAboveAtLeast(s: seq<int>, v: int, k: nat)
    requires IsSorted(s) && k < |s|
    requires v < s[k]
    ensures CountAbove(s, v) >= |s| - k
  {
    if k == 0 {
      if |s| > 1 {
        SortedAboveAtLeast(s[1..], v, 0);
      }
    } else {
      SortedAboveAtLeast(s[1..], v, k - 1);
    }
  }

  /** In a sorted list, everything up to position k is below a value above s[k]. */
  lemma {:induction false} SortedBelowAtLeast(s: seq<int>, v: int, k: nat)
    requires IsSorted(s) && k < |s|
    requires s[k] < v
    ensures CountBelow(s, v) >= k + 1
  {
    if k > 0 {
      SortedBelowAtLeast(s[1..], v, k - 1);
    }
  }

  /**
   * The median of a non-empty list of votes: the middle of the sorted votes
   * for an odd count, the rounded mean of the two middle ones for an even count.
   */
  function MedianOf(xs: seq<int>): int
    requires xs != []
  {
    MiddleOf(SortAscending(xs))
  }

  /** The middle of a non-empty list, or the rounded mean of its two middle elements. */
  function MiddleOf(s: seq<int>): (m: int)
    requires s != []
    ensures |s| % 2 == 0 ==>
      2 * Abs(s[|s| / 2 - 1] + s[|s| / 2] - m * 2) <= 2 &&
      (2 * Abs(s[|s| / 2 - 1] + s[|s| / 2] - m * 2) == 2 ==> m % 2 == 0)
  {
    var k := |s| / 2;
    if |s| % 2 == 1 then s[k] else RoundHalfEven(s[k - 1] + s[k], 2)
  }

  /** The median leaves at most half of the votes strictly on either side of it. */
  lemma MedianSplitsVotes(xs: seq<int>)
    requires xs != []
    ensures CountBelow(xs, MedianOf(xs)) <= |xs| / 2
    ensures CountAbove(xs, MedianOf(xs)) <= |xs| / 2
    ensures |xs| % 2 == 1 ==> MedianOf(xs) in xs
  {
    var s := SortAscending(xs);
    var k := |s| / 2;
    var m := MedianOf(xs);
    assert |s| == |xs| by {
      assert |multiset(s)| == |multiset(xs)|;
    }
    CountsAfterSort(xs, m);
    if |s| % 2 == 1 {
      SortedBelowAtMost(s, m, k);
      SortedAboveAtMost(s, m, k + 1);
      assert s[k] in multiset(xs);
    } else {
      assert s[k - 1] <= s[k];
      SortedBelowAtMost(s, m, k);
      SortedAboveAtMost(s, m, k);
    }
  }

  /** For an even count, the median is the mean of the two middle votes, a tie going to the even side. */
  lemma MedianOfEvenCount(xs: seq<int>, s: seq<int>, m: int)
    requires xs != [] && |xs| % 2 == 0
    requires s == SortAscending(xs) && m == MedianOf(xs)
    ensures |s| == |xs|
    ensures 2 * Abs(s[|s| / 2 - 1] + s[|s| / 2] - m * 2) <= 2
    ensures 2 * Abs(s[|s| / 2 - 1] + s[|s| / 2] - m * 2) == 2 ==> m % 2 == 0
  {
    SortKeepsLength(xs);
    assert m == MiddleOf(s);
  }

  lemma SortKeepsLength(xs: seq<int>)
    ensures |SortAscending(xs)| == |xs|
  {
    assert |multiset(SortAscending(xs))| == |multiset(xs)|;
  }

  /** For an odd count, the median is the only value that splits the votes that way. */
  lemma MedianIsUnique(xs: seq<int>, m: int)
    requires |xs| % 2 == 1
    requires CountBelow(xs, m) <= |xs| / 2 && CountAbove(xs, m) <= |xs| / 2
    ensures m == MedianOf(xs)
  {
    var s := SortAscending(xs);
    var k := |s| / 2;
    assert |s| == |xs| by {
      assert |multiset(s)| == |multiset(xs)|;
    }
    CountsAfterSort(xs, m);
    if m < s[k] {
      SortedAboveAtLeast(s, m, k);
    } else if m > s[k] {
      SortedBelowAtLeast(s, m, k);
    }
  }

  /** The median lies within the range of the votes. */
  lemma MedianWithinVotes(xs: seq<int>, lo: int, hi: int)
    requires xs != []
    requires forall i :: 0 <= i < |xs| ==> lo <= xs[i] <= hi
    ensures lo <= MedianOf(xs) <= hi
  {
    var s := SortAscending(xs);
    assert |s| == |xs| by {
      assert |multiset(s)| == |multiset(xs)|;
    }
    forall i | 0 <= i < |s|
      ensures lo <= s[i] <= hi
    {
      assert s[i] in multiset(xs);
    }
  }

  // ----- Mean -----

  function Sum(xs: seq<int>): int {
    if xs == [] then 0 else Sum(xs[..|xs| - 1]) + xs[|xs| - 1]
  }

  lemma {:induction false} SumBounds(xs: seq<int>, lo: int, hi: int)
    requires forall i :: 0 <= i < |xs| ==> lo <= xs[i] <= hi
    ensures |xs| * lo <= Sum(xs) <= |xs| * hi
  {
    if xs != [] {
      SumBounds(xs[..|xs| - 1], lo, hi);
    }
  }

  /** The arithmetic mean of a non-empty list of votes, rounded as `round` does. */
  function AverageOf(xs: seq<int>): (r: int)
    requires xs != []
    ensures 2 * Abs(Sum(xs) - r * |xs|) <= |xs|
    ensures 2 * Abs(Sum(xs) - r * |xs|) == |xs| ==> r % 2 == 0
  {
    RoundHalfEven(Sum(xs), |xs|)
  }

  /** The rounded mean lies within the range of the votes. */
  lemma AverageWithinVotes(xs: seq<int>, lo: int, hi: int)
    requires xs != []
    requires forall i :: 0 <= i < |xs| ==> lo <= xs[i] <= hi
    ensures lo <= AverageOf(xs) <= hi
  {
    var n, r := |xs|, AverageOf(xs);
    SumBounds(xs, lo, hi);
    if r < lo {
      MulGap(r, lo, 1, n);
    }
    if r > hi {
      MulGap(hi, r, 1, n);
    }
  }

  // ----- Most frequent card, for the majorities -----

  /** Scans the cards from position i, keeping the first card of highest count seen so far. */
  function LeaderFrom(cards: seq<string>, i: nat, best: nat): (k: nat)
    requires best < i <= |cards|
    requires forall j :: 0 <= j < i ==> multiset(cards)[cards[j]] <= multiset(cards)[cards[best]]
    requires forall j :: 0 <= j < best ==> multiset(cards)[cards[j]] < multiset(cards)[cards[best]]
    ensures k < |cards|
    ensures forall j :: 0 <= j < |cards| ==> multiset(cards)[cards[j]] <= multiset(cards)[cards[k]]
    ensures forall j :: 0 <= j < k ==> multiset(cards)[cards[j]] < multiset(cards)[cards[k]]
    decreases |cards| - i
  {
    if i == |cards| then best
    else if multiset(cards)[cards[i]] > multiset(cards)[cards[best]] then LeaderFrom(cards, i + 1, i)
    else LeaderFrom(cards, i + 1, best)
  }

  /**
   * The position of the most frequent card: no card is played more often,
   * and every card before it is played strictly less often, so among equally
   * frequent cards the one in the earliest row wins.
   */
  function Leader(cards: seq<string>): (k: nat)
    requires cards != []
    ensures k < |cards|
    ensures forall j :: 0 <= j < |cards| ==> multiset(cards)[cards[j]] <= multiset(cards)[cards[k]]
    ensures forall j :: 0 <= j < k ==> multiset(cards)[cards[j]] < multiset(cards)[cards[k]]
  {
    LeaderFrom(cards, 1, 0)
  }

  /** Two different cards together are played at most as often as there are cards. */
  lemma {:induction false} TwoCardsShareTheVotes(cards: seq<string>, a: string, b: string)
    requires a != b
    ensures multiset(cards)[a] + multiset(cards)[b] <= |cards|
  {
    if cards != [] {
      var prefix := cards[..|cards| - 1];
      assert cards == prefix + [cards[|cards| - 1]];
      TwoCardsShareTheVotes(prefix, a, b);
    }
  }

  // ----- The five modes -----

  predicate Unanimous(cards: seq<string>, c: string) {
    forall i :: 0 <= i < |cards| ==> cards[i] == c
  }

  /** strict: the agreed card if every played card is the same, -1 as soon as two differ. */
  function StrictResult(votes: seq<Vote>): (r: int)
    ensures Submitted(votes) == [] ==> r == NoVotes
    ensures forall c :: Submitted(votes) != [] && Unanimous(Submitted(votes), c) ==> r == CardValue(c)
    ensures (exists i, j :: 0 <= i < j < |Submitted(votes)| && Submitted(votes)[i] != Submitted(votes)[j]) ==> r == NoConsensus
  {
    var cards := Submitted(votes);
    if cards == [] then NoVotes
    else if forall i :: 0 <= i < |cards| ==> cards[i] == cards[0] then CardValue(cards[0])
    else NoConsensus
  }

  /**
   * median: the median of the numeric votes, 0 when there are none. For an
   * even count it is the mean of the two middle votes, rounded as `round` does.
   */
  function MedianResult(votes: seq<Vote>): (r: int)
    ensures r >= 0
    ensures var xs := Numbers(Submitted(votes));
      xs != [] ==> CountBelow(xs, r) <= |xs| / 2 && CountAbove(xs, r) <= |xs| / 2 && r <= MaxOf(xs)
    ensures Numbers(Submitted(votes)) == [] ==> r == NoVotes
  {
    var xs := Numbers(Submitted(votes));
    if xs == [] then NoVotes
    else
      MedianSplitsVotes(xs);
      MedianWithinVotes(xs, 0, MaxOf(xs));
      MedianOf(xs)
  }

  /** median, for an even count of numeric votes: the mean of the two middle votes, a tie going to the even side. */
  lemma MedianResultOfEvenCount(votes: seq<Vote>, xs: seq<int>, s: seq<int>, r: int)
    requires xs == Numbers(Submitted(votes)) && xs != [] && |xs| % 2 == 0
    requires s == SortAscending(xs) && r == MedianResult(votes)
    ensures |s| == |xs|
    ensures 2 * Abs(s[|s| / 2 - 1] + s[|s| / 2] - r * 2) <= 2
    ensures 2 * Abs(s[|s| / 2 - 1] + s[|s| / 2] - r * 2) == 2 ==> r % 2 == 0
  {
    assert r == MedianOf(xs);
    MedianOfEvenCount(xs, s, r);
  }

  /** average: the rounded mean of the numeric votes, 0 when there are none. */
  function AverageResult(votes: seq<Vote>): (r: int)
    ensures r >= 0
    ensures var xs := Numbers(Submitted(votes));
      xs != [] ==> 2 * Abs(Sum(xs) - r * |xs|) <= |xs| && r <= MaxOf(xs)
    ensures var xs := Numbers(Submitted(votes));
      xs != [] && 2 * Abs(Sum(xs) - r * |xs|) == |xs| ==> r % 2 == 0
    ensures Numbers(Submitted(votes)) == [] ==> r == NoVotes
  {
    var xs := Numbers(Submitted(votes));
    if xs == [] then NoVotes
    else
      AverageWithinVotes(xs, 0, MaxOf(xs));
      AverageOf(xs)
  }

  /** A bound on the votes, to state that results stay within them. */
  function MaxOf(xs: seq<int>): (m: int)
    requires xs != []
    ensures forall i :: 0 <= i < |xs| ==> xs[i] <= m
    ensures m in xs
  {
    if |xs| == 1 then xs[0]
    else
      var rest := MaxOf(xs[1..]);
      if xs[0] >= rest then xs[0] else rest
  }

  /**
   * majority_abs: the most frequent card when it holds strictly more than
   * half of the played cards, -1 when no card does, 0 when none was played.
   */
  function MajorityAbsResult(votes: seq<Vote>): (r: int)
    ensures Submitted(votes) == [] ==> r == NoVotes
    ensures forall c :: 2 * multiset(Submitted(votes))[c] > |Submitted(votes)| ==> r == CardValue(c)
    ensures (Submitted(votes) != [] && forall i :: 0 <= i < |Submitted(votes)| ==>
               2 * multiset(Submitted(votes))[Submitted(votes)[i]] <= |Submitted(votes)|)
            ==> r == NoConsensus
  {
    var cards := Submitted(votes);
    if cards == [] then NoVotes
    else
      var k := Leader(cards);
      MajorityIsUnique(cards, k);
      if 2 * multiset(cards)[cards[k]] > |cards| then CardValue(cards[k]) else NoConsensus
  }

  /** Only the most frequent card can hold a strict majority. */
  lemma MajorityIsUnique(cards: seq<string>, k: nat)
    requires k < |cards|
    requires forall j :: 0 <= j < |cards| ==> multiset(cards)[cards[j]] <= multiset(cards)[cards[k]]
    ensures forall c :: 2 * multiset(cards)[c] > |cards| ==> c == cards[k]
  {
    forall c | 2 * multiset(cards)[c] > |cards|
      ensures c == cards[k]
    {
      assert c in multiset(cards);
      var j :| 0 <= j < |cards| && cards[j] == c;
      if c != cards[k] {
        TwoCardsShareTheVotes(cards, c, cards[k]);
      }
    }
  }

  /**
   * majority_rel: the most frequent card, whatever its share; among equally
   * frequent cards, the one in the earliest row. 0 when none was played.
   */
  function MajorityRelResult(votes: seq<Vote>): (r: int)
    ensures Submitted(votes) == [] ==> r == NoVotes
    ensures var cards := Submitted(votes);
      cards != [] ==> exists k :: 0 <= k < |cards| && r == CardValue(cards[k]) &&
                                  (forall j :: 0 <= j < |cards| ==> multiset(cards)[cards[j]] <= multiset(cards)[cards[k]]) &&
                                  (forall j :: 0 <= j < k ==> multiset(cards)[cards[j]] < multiset(cards)[cards[k]])
  {
    var cards := Submitted(votes);
    if cards == [] then NoVotes else CardValue(cards[Leader(cards)])
  }

  /** The value close_story computes for a session's votes under a mode. */
  function Aggregate(mode: Mode, votes: seq<Vote>): (r: int)
    ensures r >= NoConsensus
    ensures (forall i :: 0 <= i < |votes| ==> votes[i].None?) ==> r == NoVotes
  {
    NoSubmittedCards(votes);
    match mode
    case Strict => StrictResult(votes)
    case Median => MedianResult(votes)
    case Average => AverageResult(votes)
    case MajorityAbs => MajorityAbsResult(votes)
    case MajorityRel => MajorityRelResult(votes)
  }

  lemma {:induction false} NoSubmittedCards(votes: seq<Vote>)
    ensures (forall i :: 0 <= i < |votes| ==> votes[i].None?) ==> Submitted(votes) == []
  {
    if votes != [] {
      NoSubmittedCards(votes[..|votes| - 1]);
    }
  }

  // ----- Relations between the modes -----

  /** A "coffee" or "?" card changes neither the median nor the average, wherever it is played. */
  lemma NonNumeralsDoNotCount(before: seq<Vote>, c: string, after: seq<Vote>)
    requires !IsNumeral(c)
    ensures MedianResult(before + [Some(c)] + after) == MedianResult(before + after)
    ensures AverageResult(before + [Some(c)] + after) == AverageResult(before + after)
  {
    SubmittedOfConcat(before + [Some(c)], after);
    SubmittedOfConcat(before, [Some(c)]);
    SubmittedOfConcat(before, after);
    assert Submitted([Some(c)]) == [c] by {
      assert [Some(c)][..0] == [];
    }
    var a, b := Submitted(before), Submitted(after);
    NumbersOfConcat(a + [c], b);
    NumbersOfConcat(a, [c]);
    NumbersOfConcat(a, b);
    NumbersOfCard(c);
  }

  /** The cards played by two runs of players are those of each run, in order. */
  lemma {:induction false} SubmittedOfConcat(a: seq<Vote>, b: seq<Vote>)
    ensures Submitted(a + b) == Submitted(a) + Submitted(b)
  {
    if b == [] {
      assert a + b == a;
    } else {
      var prefix := b[..|b| - 1];
      assert (a + b)[..|a + b| - 1] == a + prefix;
      assert (a + b)[|a + b| - 1] == b[|b| - 1];
      SubmittedOfConcat(a, prefix);
    }
  }

  /** When an absolute majority exists, both majority modes return the same value. */
  lemma MajoritiesAgree(votes: seq<Vote>, c: string)
    requires 2 * multiset(Submitted(votes))[c] > |Submitted(votes)|
    ensures MajorityAbsResult(votes) == MajorityRelResult(votes) == CardValue(c)
  {
    var cards := Submitted(votes);
    var k := Leader(cards);
    MajorityIsUnique(cards, k);
  }

  /** When every player played the same number card, all five modes return that number. */
  lemma UnanimityAgreesInEveryMode(votes: seq<Vote>, c: string, mode: Mode)
    requires votes != [] && IsNumeral(c)
    requires forall i :: 0 <= i < |votes| ==> votes[i] == Some(c)
    ensures Aggregate(mode, votes) == Value(c)
  {
    var cards := Submitted(votes);
    SubmittedOfUnanimous(votes, c);
    match mode
    case Strict =>
    case Median =>
      NumbersOfUnanimous(cards, c);
      MedianOfConstant(Numbers(cards), Value(c));
    case Average =>
      NumbersOfUnanimous(cards, c);
      AverageOfConstant(Numbers(cards), Value(c));
    case MajorityAbs =>
      assert 2 * multiset(cards)[c] > |cards|;
    case MajorityRel =>
      MajoritiesAgree(votes, c);
  }

  lemma MedianOfConstant(xs: seq<int>, v: int)
    requires xs != [] && forall i :: 0 <= i < |xs| ==> xs[i] == v
    ensures MedianOf(xs) == v
  {
    var s := SortAscending(xs);
    assert |s| == |xs| by {
      assert |multiset(s)| == |multiset(xs)|;
    }
    forall i | 0 <= i < |s|
      ensures s[i] == v
    {
      assert s[i] in multiset(xs);
    }
    if |s| % 2 == 0 {
      RoundingIsUnique(v + v, 2, v);
    }
  }

  lemma AverageOfConstant(xs: seq<int>, v: int)
    requires xs != [] && forall i :: 0 <= i < |xs| ==> xs[i] == v
    ensures AverageOf(xs) == v
  {
    SumOfConstant(xs, v);
    RoundingIsUnique(|xs| * v, |xs|, v);
  }

  lemma {:induction false} SubmittedOfUnanimous(votes: seq<Vote>, c: string)
    requires forall i :: 0 <= i < |votes| ==> votes[i] == Some(c)
    ensures |Submitted(votes)| == |votes| && Unanimous(Submitted(votes), c)
    ensures multiset(Submitted(votes))[c] == |votes|
  {
    if votes != [] {
      SubmittedOfUnanimous(votes[..|votes| - 1], c);
    }
  }

  lemma {:induction false} NumbersOfUnanimous(cards: seq<string>, c: string)
    requires IsNumeral(c) && Unanimous(cards, c)
    ensures |Numbers(cards)| == |cards|
    ensures forall i :: 0 <= i < |cards| ==> Numbers(cards)[i] == Value(c)
  {
    if cards != [] {
      NumbersOfUnanimous(cards[..|cards| - 1], c);
    }
  }

  lemma {:induction false} SumOfConstant(xs: seq<int>, v: int)
    requires forall i :: 0 <= i < |xs| ==> xs[i] == v
    ensures Sum(xs) == |xs| * v
  {
    if xs != [] {
      SumOfConstant(xs[..|xs| - 1], v);
    }
  }
}
