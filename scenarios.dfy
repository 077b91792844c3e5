/** The scan's outcome on small word lists: the documented behaviour and the quirks of the
    skip loop. */
module Scenarios {
  import opened Hamming
  import opened Matcher

  lemma DistanceOf3(a: seq<char>, b: seq<char>)
    requires |a| == 3 && |b| == 3
    ensures Distance(a, b) ==
              (if a[0] != b[0] then 1 else 0) + (if a[1] != b[1] then 1 else 0) + (if a[2] != b[2] then 1 else 0)
  {
    assert Mismatches(a, b, 1) == if a[0] != b[0] then 1 else 0;
    assert Mismatches(a, b, 2) == Mismatches(a, b, 1) + if a[1] != b[1] then 1 else 0;
  }

  /** A query in the list is reported correct. */
  lemma ExactWordIsCorrect()
    ensures Expected("cat", ["cat", "cot", "cut", "dog"]) == Correct
  {
    var W: seq<seq<char>> := ["cat", "cot", "cut", "dog"];
    DistanceOf3("cat", W[0]);
    FinishExact("cat", W, 0);
  }

  lemma BatDistances()
    ensures Distance("bat", "cat") == 1 && Distance("bat", "cot") == 2
    ensures Distance("bat", "cut") == 2 && Distance("bat", "dog") == 3
  {
    DistanceOf3("bat", "cat");
    DistanceOf3("bat", "cot");
    DistanceOf3("bat", "cut");
    DistanceOf3("bat", "dog");
  }

  /** Only "cat" is at distance 1 from "bat" ("cot" and "cut" are at distance 2, "dog" at 3),
      so it is the only suggestion. */
  lemma OneSuggestion()
    ensures Expected("bat", ["cat", "cot", "cut", "dog"]) == Incorrect([0, -1, -1, -1, -1])
  {
    var q: seq<char> := "bat";
    var W: seq<seq<char>> := ["cat", "cot", "cut", "dog"];
    var cs: seq<nat> := [0, 1, 2, 3];
    CandidatesUpTo(q, W, 4);
    assert Candidates(q, W, ScanEnd(q, W)) == cs;
    BatClosest();
    assert Slots([0]) == [0, -1, -1, -1, -1];
  }

  lemma BatClosest()
    ensures MinDist("bat", ["cat", "cot", "cut", "dog"], [0, 1, 2, 3]) == 1
    ensures AtDist("bat", ["cat", "cot", "cut", "dog"], [0, 1, 2, 3], 1) == [0]
  {
    var W: seq<seq<char>> := ["cat", "cot", "cut", "dog"];
    var cs: seq<nat> := [0, 1, 2, 3];
    BatDistances();
    assert forall k :: 1 <= k < |cs| ==> Distance("bat", W[cs[k]]) > 1;
    UniqueClosest("bat", W, cs, 1);
  }

  /** When the first listed entry is strictly closer than all the others, it alone is kept. */
  lemma UniqueClosest(q: seq<char>, W: seq<seq<char>>, cs: seq<nat>, d: nat)
    requires cs != [] && InRange(cs, W) && Increasing(cs)
    requires Distance(q, W[cs[0]]) == d
    requires forall k :: 1 <= k < |cs| ==> Distance(q, W[cs[k]]) > d
    ensures MinDist(q, W, cs) == d && AtDist(q, W, cs, d) == [cs[0]]
  {
    MinDistSpec(q, W, cs);
    AtDistSound(q, W, cs, d);
    AtDistComplete(q, W, cs, d);
    AtDistIncreasing(q, W, cs, d);
    var r := AtDist(q, W, cs, d);
    forall k | 0 <= k < |r| ensures r[k] == cs[0] {
      var l :| 0 <= l < |cs| && cs[l] == r[k];
    }
    assert r[0] == cs[0];
  }

  /** Six ties at distance 2: only the first five are kept. */
  lemma FiveOfSixTies()
    ensures Expected("zz", ["ab", "ac", "ad", "ae", "af", "ag"]) == Incorrect([0, 1, 2, 3, 4])
  {
    var q: seq<char> := "zz";
    var W: seq<seq<char>> := ["ab", "ac", "ad", "ae", "af", "ag"];
    forall j | 0 <= j < 6 ensures |W[j]| == 2 && Distance(q, W[j]) == 2 {
      DistanceOf2(q, W[j]);
    }
    assert !TailBySkip(q, W) && ScanEnd(q, W) == 6;
    var cs: seq<nat> := [0, 1, 2, 3, 4, 5];
    CandidatesUpTo(q, W, 6);
    assert Candidates(q, W, 6) == cs;
    MinDistSpec(q, W, cs);
    AtDistAll(q, W, cs, 2);
    assert Closest(q, W, cs) == cs;
    assert Slots(cs) == [0, 1, 2, 3, 4];
  }

  /** Entries are compared character by character and never lowercased: "Cat" is one
      substitution away from the query "cat", as far as "cot", so "cat" is not found. */
  lemma CapitalsNeverMatch()
    ensures Expected("cat", ["Cat", "cot"]) == Incorrect([0, 1, -1, -1, -1])
  {
    var q: seq<char> := "cat";
    var W: seq<seq<char>> := ["Cat", "cot"];
    DistanceOf3(q, W[0]);
    DistanceOf3(q, W[1]);
    assert !TailBySkip(q, W) && ScanEnd(q, W) == 2;
    var cs: seq<nat> := [0, 1];
    CandidatesUpTo(q, W, 2);
    assert Candidates(q, W, 2) == cs;
    MinDistSpec(q, W, cs);
    AtDistAll(q, W, cs, 1);
    assert Closest(q, W, cs) == cs;
    assert Slots(cs) == [0, 1, -1, -1, -1];
  }

  lemma DistanceOf2(a: seq<char>, b: seq<char>)
    requires |a| == 2 && |b| == 2
    ensures Distance(a, b) == (if a[0] != b[0] then 1 else 0) + (if a[1] != b[1] then 1 else 0)
  {
    assert Mismatches(a, b, 1) == if a[0] != b[0] then 1 else 0;
  }

  /** When every entry below hi is as long as q, the candidates are 0, 1, ..., hi - 1. */
  lemma {:induction false} CandidatesUpTo(q: seq<char>, W: seq<seq<char>>, hi: nat)
    requires hi <= |W| && forall j :: 0 <= j < hi ==> |W[j]| == |q|
    ensures |Candidates(q, W, hi)| == hi
    ensures forall k :: 0 <= k < hi ==> Candidates(q, W, hi)[k] == k
  {
    if hi > 0 {
      CandidatesUpTo(q, W, hi - 1);
    }
  }

  lemma {:induction false} AtDistAll(q: seq<char>, W: seq<seq<char>>, cs: seq<nat>, d: nat)
    requires InRange(cs, W)
    requires forall k :: 0 <= k < |cs| ==> Distance(q, W[cs[k]]) == d
    ensures AtDist(q, W, cs, d) == cs
  {
    if cs != [] {
      AtDistAll(q, W, cs[..|cs| - 1], d);
      assert cs[..|cs| - 1] + [cs[|cs| - 1]] == cs;
    }
  }

  /** Quirk: the skip loop stops on the last entry and compares only the query's length of it,
      so a query that is a proper prefix of the last entry is reported correct. */
  lemma PrefixOfLastIsCorrect()
    ensures Expected("cat", ["xy", "cattle"]) == Correct
  {
    DistanceZeroIffPrefix("cat", "cattle");
  }

  /** Quirk: the last entry, reached by the skip loop, is never suggested, although it is the
      closest equal-length entry. */
  lemma LastEntryNotSuggested()
    ensures Expected("bat", ["cot", "ab", "cat"]) == Incorrect([0, -1, -1, -1, -1])
  {
    var q: seq<char> := "bat";
    var W: seq<seq<char>> := ["cot", "ab", "cat"];
    DistanceOf3(q, W[0]);
    DistanceOf3(q, W[2]);
    assert Candidates(q, W, 2) == [0];
    assert AtDist(q, W, [0], 2) == [0];
  }

  /** Quirk: when the last entry is reached from an equal-length entry and its own length
      differs, the skip loop runs past the end of the list. */
  lemma SkipLoopOverrun()
    ensures Expected("cow", ["cat", "dog", "horse"]) == Undefined
  {
  }
}
