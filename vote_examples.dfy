/**
 * The vote lists the close_story scenarios use, each reduced under its
 * mode to the value those scenarios expect.
 */
module VoteExamples {

  import opened Options
  import opened Decimal
  import opened Aggregation

  /** Every player has played the card at the same position. */
  function Played(cards: seq<string>): (votes: seq<Vote>)
    ensures |votes| == |cards|
  {
    seq(|cards|, i requires 0 <= i < |cards| => Some(cards[i]))
  }

  /** When nobody abstains, the cards played are the votes themselves, in order. */
  lemma {:induction false} SubmittedOfPlayed(votes: seq<Vote>, cards: seq<string>)
    requires |votes| == |cards|
    requires forall i :: 0 <= i < |votes| ==> votes[i] == Some(cards[i])
    ensures |Submitted(votes)| == |cards|
    ensures forall i :: 0 <= i < |cards| ==> Submitted(votes)[i] == cards[i]
  {
    if votes != [] {
      var n := |votes|;
      var prefix := votes[..n - 1];
      SubmittedOfPlayed(prefix, cards[..n - 1]);
      assert votes[n - 1] == Some(cards[n - 1]);
      assert Submitted(votes) == Submitted(prefix) + [cards[n - 1]];
    }
  }

  lemma CardNumbers()
    ensures Value("2") == 2 && Value("3") == 3 && Value("4") == 4 && Value("5") == 5
    ensures Value("6") == 6 && Value("8") == 8 && Value("13") == 13
  {
    assert "2"[..0] == "3"[..0] == "4"[..0] == "5"[..0] == "6"[..0] == "8"[..0] == [];
    assert "13"[..1] == "1" && "1"[..0] == [];
  }

  /** strict: three "5" give 5; a "5" and an "8" give -1. */
  lemma StrictExamples()
    ensures Aggregate(Strict, Played(["5", "5", "5"])) == 5
    ensures Aggregate(Strict, Played(["5", "8"])) == NoConsensus
  {
    CardNumbers();
    UnanimityAgreesInEveryMode(Played(["5", "5", "5"]), "5", Strict);
    SubmittedOfPlayed(Played(["5", "8"]), ["5", "8"]);
    var cards := Submitted(Played(["5", "8"]));
    assert cards[0] != cards[1];
  }

  /** The numeric cards read as integers, position by position. */
  lemma {:induction false} NumbersOfNumerals(cards: seq<string>)
    requires forall i :: 0 <= i < |cards| ==> IsNumeral(cards[i])
    ensures |Numbers(cards)| == |cards|
    ensures forall i :: 0 <= i < |cards| ==> Numbers(cards)[i] == Value(cards[i])
  {
    if cards != [] {
      NumbersOfNumerals(cards[..|cards| - 1]);
    }
  }

  /** The votes, as the median and the average read them, when every player played a number. */
  lemma NumbersOfPlayed(cards: seq<string>, xs: seq<int>)
    requires |xs| == |cards|
    requires forall i :: 0 <= i < |cards| ==> IsNumeral(cards[i]) && Value(cards[i]) == xs[i]
    ensures Numbers(Submitted(Played(cards))) == xs
  {
    SubmittedOfPlayed(Played(cards), cards);
    assert Submitted(Played(cards)) == cards;
    NumbersOfNumerals(cards);
  }

  lemma MiddleOfThree()
    ensures MedianOf([3, 5, 8]) == 5
  {
    var xs: seq<int> := [3, 5, 8];
    assert xs[1..] == [5, 8] && xs[1..][1..] == [8] && xs[1..][1..][1..] == [];
    assert CountBelow(xs, 5) == 1 && CountAbove(xs, 5) == 1;
    MedianIsUnique(xs, 5);
  }

  lemma MiddlePairOfFour()
    ensures MedianOf([3, 5, 8, 13]) == 6
  {
    var xs: seq<int> := [3, 5, 8, 13];
    assert SortAscending(xs) == xs by {
      SortKeepsSortedVotes(xs);
    }
    assert RoundHalfEven(13, 2) == 6 by {
      assert 13 / 2 == 6 && 13 % 2 == 1;
    }
  }

  /** median: "3", "5", "8" give 5, the middle vote. */
  lemma MedianOddExample()
    ensures Aggregate(Median, Played(["3", "5", "8"])) == 5
  {
    CardNumbers();
    NumbersOfPlayed(["3", "5", "8"], [3, 5, 8]);
    MiddleOfThree();
  }

  /** median: "3", "5", "8", "13" give 6, the mean 6.5 of the middle votes rounded to even. */
  lemma MedianEvenExample()
    ensures Aggregate(Median, Played(["3", "5", "8", "13"])) == 6
  {
    CardNumbers();
    NumbersOfPlayed(["3", "5", "8", "13"], [3, 5, 8, 13]);
    MiddlePairOfFour();
  }

  /** average: "2", "4", "6" give 4; players who all abstained give 0. */
  lemma AverageExamples()
    ensures Aggregate(Average, Played(["2", "4", "6"])) == 4
    ensures Aggregate(Average, [None, None]) == NoVotes
  {
    CardNumbers();
    var xs: seq<int> := [2, 4, 6];
    NumbersOfPlayed(["2", "4", "6"], xs);
    assert Sum([2]) == 2 by {
      assert [2][..0] == [];
    }
    assert Sum([2, 4]) == 6 by {
      assert [2, 4][..1] == [2];
    }
    assert Sum(xs) == 12 by {
      assert xs[..2] == [2, 4];
    }
    RoundingIsUnique(12, 3, 4);
  }

  lemma CountsOfClearMajority()
    ensures multiset(["5", "5", "5", "8"])["5"] == 3
  {
    var cards: seq<string> := ["5", "5", "5", "8"];
    assert cards == ["5", "5", "5"] + ["8"];
    assert "8" != "5";
  }

  lemma CountsOfEvenSplit()
    ensures var cards: seq<string> := ["5", "5", "8", "8"];
      forall i :: 0 <= i < |cards| ==> 2 * multiset(cards)[cards[i]] <= |cards|
  {
    var cards: seq<string> := ["5", "5", "8", "8"];
    assert cards == ["5", "5"] + ["8", "8"];
    assert "8" != "5";
    assert multiset(cards)["5"] == 2 && multiset(cards)["8"] == 2;
  }

  lemma CountsOfSpread()
    ensures var m := multiset(["5", "5", "8", "13"]);
      m["5"] == 2 && m["8"] == 1 && m["13"] == 1
  {
    var cards: seq<string> := ["5", "5", "8", "13"];
    assert cards == ["5", "5"] + ["8"] + ["13"];
    assert "8" != "5" && "13" != "5" && "13" != "8";
  }

  /** majority_abs: three "5" and an "8" give 5; two "5" and two "8" give -1. */
  lemma MajorityAbsExamples()
    ensures Aggregate(MajorityAbs, Played(["5", "5", "5", "8"])) == 5
    ensures Aggregate(MajorityAbs, Played(["5", "5", "8", "8"])) == NoConsensus
  {
    CardNumbers();
    var clear: seq<string> := ["5", "5", "5", "8"];
    SubmittedOfPlayed(Played(clear), clear);
    assert Submitted(Played(clear)) == clear;
    CountsOfClearMajority();
    var split: seq<string> := ["5", "5", "8", "8"];
    SubmittedOfPlayed(Played(split), split);
    assert Submitted(Played(split)) == split;
    CountsOfEvenSplit();
  }

  /** majority_rel: two "5", an "8" and a "13" give 5, the most frequent card. */
  lemma MajorityRelExample()
    ensures Aggregate(MajorityRel, Played(["5", "5", "8", "13"])) == 5
  {
    CardNumbers();
    var spread: seq<string> := ["5", "5", "8", "13"];
    SubmittedOfPlayed(Played(spread), spread);
    assert Submitted(Played(spread)) == spread;
    CountsOfSpread();
    var k := Leader(spread);
    assert multiset(spread)[spread[0]] <= multiset(spread)[spread[k]];
    assert spread[k] == "5";
  }
}
