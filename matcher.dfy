/** The per-query scan inside main: verdict and up to five suggestions at minimum distance. */
module Matcher {
  import opened CString
  import opened Hamming

  /** Number of suggestion slots (the closest[5] array). */
  const SLOTS: nat := 5

  /** What the scan reports. Undefined: the scan reads a row past the loaded word list. */
  datatype Verdict = Correct | Incorrect(closest: seq<int>) | Undefined

  // ---------------------------------------------------------------------------
  // Reference definition of the scan's outcome
  // ---------------------------------------------------------------------------

  /** Indices j < hi, ascending, of the entries as long as the query. */
  function Candidates(q: seq<char>, W: seq<seq<char>>, hi: nat): seq<nat>
    requires hi <= |W|
  {
    if hi == 0 then []
    else Candidates(q, W, hi - 1) + (if |W[hi - 1]| == |q| then [hi - 1] else [])
  }

  predicate InRange(cs: seq<nat>, W: seq<seq<char>>)
  {
    forall k :: 0 <= k < |cs| ==> cs[k] < |W|
  }

  predicate Increasing(cs: seq<nat>)
  {
    forall k, l :: 0 <= k < l < |cs| ==> cs[k] < cs[l]
  }

  /** Distance from q to entry j. The scan only ever compares entries of the list: every
      index it hands over is below |W| (InRange, see CandidatesSpec). The 0 for an index past
      the end only makes MinDist and AtDist total and never reaches a verdict. */
  function DistTo(q: seq<char>, W: seq<seq<char>>, j: nat): nat
  {
    if j < |W| then Distance(q, W[j]) else 0
  }

  /** The smallest distance from q to an entry listed in cs. */
  function MinDist(q: seq<char>, W: seq<seq<char>>, cs: seq<nat>): nat
    requires cs != []
  {
    var d := DistTo(q, W, cs[|cs| - 1]);
    if |cs| == 1 then d
    else
      var m0 := MinDist(q, W, cs[..|cs| - 1]);
      if d < m0 then d else m0
  }

  /** The entries of cs, in order, at distance exactly d from q. */
  function AtDist(q: seq<char>, W: seq<seq<char>>, cs: seq<nat>, d: nat): seq<nat>
  {
    if cs == [] then []
    else
      var last := cs[|cs| - 1];
      AtDist(q, W, cs[..|cs| - 1], d) + (if DistTo(q, W, last) == d then [last] else [])
  }

  /** The first SLOTS elements of s, padded with -1 ("empty") up to SLOTS slots. */
  function Slots(s: seq<int>): (c: seq<int>)
    ensures |c| == SLOTS
    ensures forall k :: 0 <= k < SLOTS ==> c[k] == if k < |s| then s[k] else -1
  {
    if |s| >= SLOTS then s[..SLOTS] else s + seq(SLOTS - |s|, _ => -1)
  }

  /** The scan's skip loop stops at the last entry without checking its length; this happens
      exactly when the entry before it is of a different length than the query. */
  predicate TailBySkip(q: seq<char>, W: seq<seq<char>>)
  {
    |W| >= 2 && |W[|W| - 2]| != |q|
  }

  /** Entries below this index are compared normally. */
  function ScanEnd(q: seq<char>, W: seq<seq<char>>): nat
  {
    if TailBySkip(q, W) then |W| - 1 else |W|
  }

  /** The first SLOTS candidates, in dictionary order, at the minimum distance. */
  function Closest(q: seq<char>, W: seq<seq<char>>, cs: seq<nat>): seq<nat>
  {
    if cs == [] then [] else AtDist(q, W, cs, MinDist(q, W, cs))
  }

  /** What the scan reports for query q over word list W. */
  function Expected(q: seq<char>, W: seq<seq<char>>): Verdict
  {
    if |W| == 0 then Undefined
    else
      var cs := Candidates(q, W, ScanEnd(q, W));
      if cs != [] && MinDist(q, W, cs) == 0 then Correct
      else if TailBySkip(q, W) && Distance(q, W[|W| - 1]) == 0 then Correct
      else if !TailBySkip(q, W) && |W[|W| - 1]| != |q| then Undefined
      else Incorrect(Slots(Closest(q, W, cs)))
  }

  // ---------------------------------------------------------------------------
  // What the reference functions mean
  // ---------------------------------------------------------------------------

  /** Candidates lists exactly the equal-length entries below hi, in increasing order. */
  lemma {:induction false} CandidatesSpec(q: seq<char>, W: seq<seq<char>>, hi: nat)
    requires hi <= |W|
    ensures InRange(Candidates(q, W, hi), W) && Increasing(Candidates(q, W, hi))
    ensures forall k :: 0 <= k < |Candidates(q, W, hi)| ==>
              Candidates(q, W, hi)[k] < hi && |W[Candidates(q, W, hi)[k]]| == |q|
    ensures forall j :: 0 <= j < hi && |W[j]| == |q| ==> j in Candidates(q, W, hi)
  {
    if hi > 0 {
      CandidatesSpec(q, W, hi - 1);
    }
  }

  /** MinDist is attained by a listed entry and no listed entry is closer. */
  lemma {:induction false} MinDistSpec(q: seq<char>, W: seq<seq<char>>, cs: seq<nat>)
    requires cs != [] && InRange(cs, W)
    ensures forall k :: 0 <= k < |cs| ==> MinDist(q, W, cs) <= Distance(q, W[cs[k]])
    ensures exists k :: 0 <= k < |cs| && MinDist(q, W, cs) == Distance(q, W[cs[k]])
  {
    if |cs| > 1 {
      var init := cs[..|cs| - 1];
      MinDistSpec(q, W, init);
      assert forall k :: 0 <= k < |init| ==> init[k] == cs[k];
      var k0 :| 0 <= k0 < |init| && MinDist(q, W, init) == Distance(q, W[init[k0]]);
      assert cs[k0] == init[k0];
    }
  }

  /** Every entry AtDist keeps is listed in cs and at distance d. */
  lemma {:induction false} AtDistSound(q: seq<char>, W: seq<seq<char>>, cs: seq<nat>, d: nat)
    requires InRange(cs, W)
    ensures |AtDist(q, W, cs, d)| <= |cs|
    ensures forall k :: 0 <= k < |AtDist(q, W, cs, d)| ==>
              AtDist(q, W, cs, d)[k] in cs && Distance(q, W[AtDist(q, W, cs, d)[k]]) == d
  {
    if cs != [] {
      var init := cs[..|cs| - 1];
      AtDistSound(q, W, init, d);
      assert forall x :: x in init ==> x in cs;
    }
  }

  /** Every entry listed in cs at distance d is kept by AtDist. */
  lemma {:induction false} AtDistComplete(q: seq<char>, W: seq<seq<char>>, cs: seq<nat>, d: nat)
    requires InRange(cs, W)
    ensures forall k :: 0 <= k < |cs| && Distance(q, W[cs[k]]) == d ==> cs[k] in AtDist(q, W, cs, d)
  {
    if cs != [] {
      var init := cs[..|cs| - 1];
      AtDistComplete(q, W, init, d);
      assert forall k :: 0 <= k < |init| ==> init[k] == cs[k];
    }
  }

  /** AtDist keeps the order of cs. */
  lemma {:induction false} AtDistIncreasing(q: seq<char>, W: seq<seq<char>>, cs: seq<nat>, d: nat)
    requires InRange(cs, W) && Increasing(cs)
    ensures Increasing(AtDist(q, W, cs, d))
  {
    if cs != [] {
      var init := cs[..|cs| - 1];
      AtDistIncreasing(q, W, init, d);
      AtDistSound(q, W, init, d);
      var r0 := AtDist(q, W, init, d);
      assert forall k :: 0 <= k < |r0| ==> r0[k] < cs[|cs| - 1] by {
        forall k | 0 <= k < |r0| ensures r0[k] < cs[|cs| - 1] {
          var m :| 0 <= m < |init| && init[m] == r0[k];
        }
      }
    }
  }

  // ---------------------------------------------------------------------------
  // One step of the scan
  // ---------------------------------------------------------------------------

  /** The scan state after the candidates below i have been compared. */
  ghost predicate ScanState(q: seq<char>, W: seq<seq<char>>, i: nat, diff: int, closest: seq<int>, index: int)
    requires i <= |W|
  {
    var cs := Candidates(q, W, i);
    (cs == [] ==> diff == MAX_WORD_LEN && closest == Slots([])) &&
    (cs != [] ==>
       diff == MinDist(q, W, cs) && diff > 0 &&
       closest == Slots(AtDist(q, W, cs, diff)) &&
       index == if |AtDist(q, W, cs, diff)| < SLOTS then |AtDist(q, W, cs, diff)| else SLOTS)
  }

  lemma AppendCandidate(q: seq<char>, W: seq<seq<char>>, i: nat)
    requires i < |W| && |W[i]| == |q|
    ensures Candidates(q, W, i + 1) == Candidates(q, W, i) + [i]
    ensures InRange(Candidates(q, W, i), W) && InRange(Candidates(q, W, i) + [i], W)
  {
    CandidatesSpec(q, W, i);
  }

  /** A candidate closer than every earlier one becomes the only suggestion. */
  lemma StepNewMin(q: seq<char>, W: seq<seq<char>>, i: nat, diff: int, closest: seq<int>, index: int)
    requires |q| < MAX_WORD_LEN && i < |W| && |W[i]| == |q|
    requires ScanState(q, W, i, diff, closest, index)
    requires 0 < Distance(q, W[i]) < diff
    ensures ScanState(q, W, i + 1, Distance(q, W[i]), Slots([i]), 1)
  {
    var cs := Candidates(q, W, i);
    var d := Distance(q, W[i]);
    AppendCandidate(q, W, i);
    AtDistAppend(q, W, cs, i, d);
    if cs != [] {
      MinDistAppend(q, W, cs, i);
      AtDistBelowMin(q, W, cs, d);
    } else {
      assert AtDist(q, W, [], d) == [];
      assert MinDist(q, W, [i]) == d;
    }
    assert [i] + [] == [i];
  }

  /** A candidate tied with the minimum fills the next free slot, if there is one. */
  lemma StepTie(q: seq<char>, W: seq<seq<char>>, i: nat, diff: int, closest: seq<int>, index: int)
    requires |q| < MAX_WORD_LEN && i < |W| && |W[i]| == |q|
    requires ScanState(q, W, i, diff, closest, index)
    requires Distance(q, W[i]) == diff
    ensures 0 <= index <= SLOTS && |closest| == SLOTS
    ensures index < SLOTS ==> ScanState(q, W, i + 1, diff, closest[index := i], index + 1)
    ensures index >= SLOTS ==> ScanState(q, W, i + 1, diff, closest, index)
  {
    var cs := Candidates(q, W, i);
    AppendCandidate(q, W, i);
    assert cs != [];
    MinDistAppend(q, W, cs, i);
    AtDistAppend(q, W, cs, i, diff);
    SlotsAppend(AtDist(q, W, cs, diff), i);
  }

  /** A candidate farther than the minimum changes nothing. */
  lemma StepFar(q: seq<char>, W: seq<seq<char>>, i: nat, diff: int, closest: seq<int>, index: int)
    requires |q| < MAX_WORD_LEN && i < |W| && |W[i]| == |q|
    requires ScanState(q, W, i, diff, closest, index)
    requires Distance(q, W[i]) > diff
    ensures ScanState(q, W, i + 1, diff, closest, index)
  {
    var cs := Candidates(q, W, i);
    AppendCandidate(q, W, i);
    assert cs != [];
    MinDistAppend(q, W, cs, i);
    AtDistAppend(q, W, cs, i, diff);
  }

  lemma MinDistAppend(q: seq<char>, W: seq<seq<char>>, cs: seq<nat>, j: nat)
    requires cs != [] && InRange(cs, W) && j < |W|
    ensures InRange(cs + [j], W)
    ensures MinDist(q, W, cs + [j]) ==
              if Distance(q, W[j]) < MinDist(q, W, cs) then Distance(q, W[j]) else MinDist(q, W, cs)
  {
    assert (cs + [j])[..|cs|] == cs;
  }

  lemma AtDistAppend(q: seq<char>, W: seq<seq<char>>, cs: seq<nat>, j: nat, d: nat)
    requires InRange(cs, W) && j < |W|
    ensures InRange(cs + [j], W)
    ensures AtDist(q, W, cs + [j], d) ==
              AtDist(q, W, cs, d) + (if Distance(q, W[j]) == d then [j] else [])
  {
    assert (cs + [j])[..|cs|] == cs;
  }

  lemma AtDistBelowMin(q: seq<char>, W: seq<seq<char>>, cs: seq<nat>, d: nat)
    requires cs != [] && InRange(cs, W) && d < MinDist(q, W, cs)
    ensures AtDist(q, W, cs, d) == []
  {
    MinDistSpec(q, W, cs);
    AtDistSound(q, W, cs, d);
    forall x | x in cs
      ensures x < |W| && d < Distance(q, W[x])
    {
      var k :| 0 <= k < |cs| && cs[k] == x;
    }
  }

  lemma SlotsAppend(s: seq<int>, j: int)
    ensures |s| < SLOTS ==> Slots(s + [j]) == Slots(s)[|s| := j]
    ensures |s| >= SLOTS ==> Slots(s + [j]) == Slots(s)
  {
  }

  // ---------------------------------------------------------------------------
  // How the scan ends
  // ---------------------------------------------------------------------------

  /** An exact match among the normally compared entries: "correct". */
  lemma FinishExact(q: seq<char>, W: seq<seq<char>>, i: nat)
    requires i < ScanEnd(q, W) && |W[i]| == |q| && Distance(q, W[i]) == 0
    ensures Expected(q, W) == Correct
  {
    var cs := Candidates(q, W, ScanEnd(q, W));
    CandidatesSpec(q, W, ScanEnd(q, W));
    var k :| 0 <= k < |cs| && cs[k] == i;
    MinDistSpec(q, W, cs);
  }

  /** The list ran out after comparing the last entry normally. */
  lemma FinishAtEnd(q: seq<char>, W: seq<seq<char>>, diff: int, closest: seq<int>, index: int)
    requires |W| > 0 && !TailBySkip(q, W) && |W[|W| - 1]| == |q|
    requires ScanState(q, W, |W|, diff, closest, index)
    ensures diff != 0 && Expected(q, W) == Incorrect(closest)
  {
    CandidatesSpec(q, W, |W|);
  }

  /** The skip loop stopped at the last entry: only an exact prefix match changes the verdict. */
  lemma FinishTail(q: seq<char>, W: seq<seq<char>>, diff: int, closest: seq<int>, index: int)
    requires TailBySkip(q, W)
    requires ScanState(q, W, |W| - 1, diff, closest, index)
    ensures diff != 0
    ensures Expected(q, W) == if Distance(q, W[|W| - 1]) == 0 then Correct else Incorrect(closest)
  {
    CandidatesSpec(q, W, |W| - 1);
  }

  /** The skip loop ran past the last entry. */
  lemma FinishOverrun(q: seq<char>, W: seq<seq<char>>, diff: int, closest: seq<int>, index: int)
    requires |W| > 0 && !TailBySkip(q, W) && |W[|W| - 1]| != |q|
    requires ScanState(q, W, |W| - 1, diff, closest, index)
    ensures Expected(q, W) == Undefined
  {
    CandidatesSpec(q, W, |W| - 1);
    assert Candidates(q, W, |W|) == Candidates(q, W, |W| - 1);
  }

  // ---------------------------------------------------------------------------
  // The scan
  // ---------------------------------------------------------------------------

  /** The skip loop: move past entries whose length differs from the query's, stopping
      (stopped) on reaching the last index without looking at that entry's length. */
  method SkipOtherLengths(word: seq<char>, wordlist: seq<seq<char>>, from: nat) returns (i: nat, stopped: bool)
    requires from <= |wordlist|
    ensures from <= i <= |wordlist|
    ensures forall j :: from <= j < i ==> |wordlist[j]| != |word|
    ensures stopped ==> from < i == |wordlist| - 1
    ensures !stopped ==> i == |wordlist| || |wordlist[i]| == |word|
    ensures !stopped && i == |wordlist| ==> from + 1 >= |wordlist|
    ensures !stopped && from < i ==> i != |wordlist| - 1
  {
    i := from;
    stopped := false;
    while i < |wordlist| && |word| != |wordlist[i]|
      invariant from <= i <= |wordlist|
      invariant forall j :: from <= j < i ==> |wordlist[j]| != |word|
      invariant from < i ==> i != |wordlist| - 1
      invariant from + 1 < |wordlist| ==> i < |wordlist|
      decreases |wordlist| - i
    {
      i := i + 1;
      if i == |wordlist| - 1 {
        stopped := true;
        break;
      }
    }
  }

  /** Compare entry i with the query and update the running minimum and the slots
      (the body of the scan loop after the skip loop). stopped: the skip loop stopped on
      the last entry, which is then only checked for a distance of 0. */
  method CompareEntry(word: seq<char>, wordlist: seq<seq<char>>, i: nat, stopped: bool,
                      closest: array<int>, diff: int, index: int)
    returns (diff': int, index': int, foundClosest: bool)
    requires |word| < MAX_WORD_LEN && i < |wordlist| && closest.Length == SLOTS
    requires ScanState(word, wordlist, i, diff, closest[..], index)
    requires !stopped ==> |wordlist[i]| == |word| && (TailBySkip(word, wordlist) ==> i < |wordlist| - 1)
    requires stopped ==> TailBySkip(word, wordlist) && i == |wordlist| - 1
    modifies closest
    ensures stopped ==> foundClosest
    ensures foundClosest ==>
              Expected(word, wordlist) == if diff' == 0 then Correct else Incorrect(closest[..])
    ensures !foundClosest ==> ScanState(word, wordlist, i + 1, diff', closest[..], index')
  {
    var currDiff := FindHamm(word, wordlist[i]);
    ghost var before := closest[..];
    diff', index', foundClosest := diff, index, stopped;

    if diff' > currDiff && !foundClosest {
      diff' := currDiff;
      if diff' == 0 {
        foundClosest := true;
      }
      for j := 0 to SLOTS
        invariant forall k :: 0 <= k < j ==> closest[k] == -1
      {
        closest[j] := -1;
      }
      index' := 1;
      closest[0] := i;
      if foundClosest {
        FinishExact(word, wordlist, i);
      } else {
        assert closest[..] == Slots([i]);
        StepNewMin(word, wordlist, i, diff, before, index);
      }
    } else if diff' == currDiff && !foundClosest {
      StepTie(word, wordlist, i, diff, before, index);
      if index' < SLOTS {
        closest[index'] := i;
        index' := index' + 1;
      }
      assert closest[..] == if index < SLOTS then before[index := i] else before;
    } else if currDiff == 0 {
      foundClosest := true;
      diff' := 0;
    } else if !foundClosest {
      StepFar(word, wordlist, i, diff, before, index);
    }

    if stopped {
      FinishTail(word, wordlist, diff, before, index);
    }
  }

  /** The first half of a pass of the scan loop: the skip loop, and whether it ran past the
      list (overrun). Otherwise i' is the entry to compare; the skipped entries change nothing. */
  method SkipToCandidate(word: seq<char>, wordlist: seq<seq<char>>, i: nat, diff: int,
                         closest: seq<int>, index: int)
    returns (i': nat, stopped: bool, overrun: bool)
    requires i <= |wordlist| && (i < |wordlist| || |wordlist| == 0)
    requires TailBySkip(word, wordlist) ==> i < |wordlist| - 1
    requires ScanState(word, wordlist, i, diff, closest, index)
    ensures i <= i' <= |wordlist|
    ensures overrun <==> i' == |wordlist|
    ensures overrun ==> Expected(word, wordlist) == Undefined
    ensures !overrun ==> ScanState(word, wordlist, i', diff, closest, index)
    ensures !overrun && !stopped ==> |wordlist[i']| == |word| && (TailBySkip(word, wordlist) ==> i' < |wordlist| - 1)
    ensures !overrun && stopped ==> TailBySkip(word, wordlist) && i' == |wordlist| - 1
  {
    i', stopped := SkipOtherLengths(word, wordlist, i);
    CandidatesSkip(word, wordlist, i, i');
    overrun := i' == |wordlist|;
    if overrun && |wordlist| > 0 {
      FinishOverrun(word, wordlist, diff, closest, index);
    }
  }

  /** The second half of a pass: compare entry i, then i++ and the end-of-list test. */
  method CompareAndAdvance(word: seq<char>, wordlist: seq<seq<char>>, i: nat, stopped: bool,
                           closest: array<int>, diff: int, index: int)
    returns (i': nat, diff': int, index': int, foundClosest: bool)
    requires |word| < MAX_WORD_LEN && i < |wordlist| && closest.Length == SLOTS
    requires ScanState(word, wordlist, i, diff, closest[..], index)
    requires !stopped ==> |wordlist[i]| == |word| && (TailBySkip(word, wordlist) ==> i < |wordlist| - 1)
    requires stopped ==> TailBySkip(word, wordlist) && i == |wordlist| - 1
    modifies closest
    ensures i <= i' <= |wordlist|
    ensures foundClosest ==>
              Expected(word, wordlist) == if diff' == 0 then Correct else Incorrect(closest[..])
    ensures !foundClosest ==>
              i < i' < |wordlist| && (TailBySkip(word, wordlist) ==> i' < |wordlist| - 1) &&
              ScanState(word, wordlist, i', diff', closest[..], index')
  {
    i' := i;
    diff', index', foundClosest := CompareEntry(word, wordlist, i, stopped, closest, diff, index);
    if !foundClosest {
      i' := i' + 1;
      if i' == |wordlist| {
        foundClosest := true;
        FinishAtEnd(word, wordlist, diff', closest[..], index');
      }
    }
  }

  /** One query's scan: the state is initialised as main does before each query (diff, closest,
      i, foundClosest), except index, which main does not reset and is passed in from the
      previous query. Its outcome is Expected, so the stale index is never observable. */
  method CheckWord(word: seq<char>, wordlist: seq<seq<char>>, staleIndex: int) returns (v: Verdict, index: int)
    requires |word| < MAX_WORD_LEN
    ensures v == Expected(word, wordlist)
  {
    var closest := new int[SLOTS];
    for j := 0 to SLOTS
      invariant forall k :: 0 <= k < j ==> closest[k] == -1
    {
      closest[j] := -1;
    }
    index := staleIndex;
    var diff := MAX_WORD_LEN;
    var i := 0;
    var foundClosest := false;
    assert closest[..] == Slots([]);

    while !foundClosest
      invariant 0 <= i <= |wordlist|
      invariant !foundClosest ==> (i < |wordlist| || |wordlist| == 0)
      invariant !foundClosest && TailBySkip(word, wordlist) ==> i < |wordlist| - 1
      invariant !foundClosest ==> ScanState(word, wordlist, i, diff, closest[..], index)
      invariant foundClosest ==>
                  Expected(word, wordlist) == if diff == 0 then Correct else Incorrect(closest[..])
      decreases |wordlist| - i, !foundClosest
    {
      var stopped, overrun;
      i, stopped, overrun := SkipToCandidate(word, wordlist, i, diff, closest[..], index);
      if overrun {
        // the skip loop ran past the last loaded entry
        return Undefined, index;
      }
      i, diff, index, foundClosest := CompareAndAdvance(word, wordlist, i, stopped, closest, diff, index);
    }

    v := if diff == 0 then Correct else Incorrect(closest[..]);
  }

  lemma CandidatesSkip(q: seq<char>, W: seq<seq<char>>, i0: nat, i: nat)
    requires i0 <= i <= |W|
    requires forall j :: i0 <= j < i ==> |W[j]| != |q|
    ensures Candidates(q, W, i) == Candidates(q, W, i0)
    decreases i - i0
  {
    if i > i0 {
      CandidatesSkip(q, W, i0, i - 1);
    }
  }
}

module MatcherFacts {
  import opened CString
  import opened Hamming
  import opened Matcher

  /** The verdict is "correct" exactly when the query is in the word list, or when the skip
      loop stopped on the last entry and the query is a prefix of that entry. */
  lemma ExpectedCorrectIff(q: seq<char>, W: seq<seq<char>>)
    requires NoNul(q)
    ensures Expected(q, W) == Correct <==>
              q in W || (TailBySkip(q, W) && q <= W[|W| - 1])
  {
    if |W| > 0 {
      ExactAmongCompared(q, W);
      DistanceZeroIffPrefix(q, W[|W| - 1]);
      if q in W {
        var j :| 0 <= j < |W| && W[j] == q;
        assert j < ScanEnd(q, W) || W[|W| - 1] == q;
      }
    }
  }

  /** A distance of 0 among the normally compared entries means the query itself is one of them. */
  lemma ExactAmongCompared(q: seq<char>, W: seq<seq<char>>)
    requires |W| > 0
    ensures var cs := Candidates(q, W, ScanEnd(q, W));
            (cs != [] && MinDist(q, W, cs) == 0) <==> exists j :: 0 <= j < ScanEnd(q, W) && W[j] == q
  {
    ExactBelow(q, W, ScanEnd(q, W));
  }

  /** The same, for the entries compared below any bound hi. */
  lemma ExactBelow(q: seq<char>, W: seq<seq<char>>, hi: nat)
    requires hi <= |W|
    ensures var cs := Candidates(q, W, hi);
            (cs != [] && MinDist(q, W, cs) == 0) <==> exists j :: 0 <= j < hi && W[j] == q
  {
    var cs := Candidates(q, W, hi);
    CandidatesSpec(q, W, hi);
    if cs != [] && MinDist(q, W, cs) == 0 {
      MinDistSpec(q, W, cs);
      var k :| 0 <= k < |cs| && MinDist(q, W, cs) == Distance(q, W[cs[k]]);
      DistanceZeroIffEqual(q, W[cs[k]]);
      assert cs[k] < hi && W[cs[k]] == q;
    }
    if exists j :: 0 <= j < hi && W[j] == q {
      var j :| 0 <= j < hi && W[j] == q;
      DistanceZeroIffEqual(q, W[j]);
      var l :| 0 <= l < |cs| && cs[l] == j;
      MinDistSpec(q, W, cs);
      assert MinDist(q, W, cs) <= Distance(q, W[cs[l]]) == 0;
    }
  }

  lemma ExpectedUndefinedIff(q: seq<char>, W: seq<seq<char>>)
    ensures Expected(q, W) == Undefined <==>
              |W| == 0 || (!TailBySkip(q, W) && |W[|W| - 1]| != |q| && q !in W)
  {
    if |W| > 0 && !TailBySkip(q, W) && |W[|W| - 1]| != |q| {
      var cs := Candidates(q, W, |W|);
      CandidatesSpec(q, W, |W|);
      if cs != [] && MinDist(q, W, cs) == 0 {
        MinDistSpec(q, W, cs);
        var k :| 0 <= k < |cs| && MinDist(q, W, cs) == Distance(q, W[cs[k]]);
        DistanceZeroIffEqual(q, W[cs[k]]);
      }
      if q in W {
        var j :| 0 <= j < |W| && W[j] == q;
        DistanceZeroIffEqual(q, W[j]);
        FinishExact(q, W, j);
      }
    }
  }

  /** Each filled slot holds an equal-length entry compared normally, at the minimum
      distance over all such entries, and that distance is not 0. */
  lemma SuggestionsAreClosest(q: seq<char>, W: seq<seq<char>>, c: seq<int>)
    requires Expected(q, W) == Incorrect(c)
    ensures |c| == SLOTS
    ensures forall k :: 0 <= k < SLOTS && c[k] != -1 ==>
              0 <= c[k] < ScanEnd(q, W) && |W[c[k]]| == |q| && Distance(q, W[c[k]]) > 0
    ensures forall k, j :: 0 <= k < SLOTS && c[k] != -1 && 0 <= j < ScanEnd(q, W) && |W[j]| == |q| ==>
              Distance(q, W[c[k]]) <= Distance(q, W[j])
  {
    var cs := Candidates(q, W, ScanEnd(q, W));
    CandidatesSpec(q, W, ScanEnd(q, W));
    if cs != [] {
      var m := MinDist(q, W, cs);
      MinDistSpec(q, W, cs);
      AtDistSound(q, W, cs, m);
      var r := AtDist(q, W, cs, m);
      forall k | 0 <= k < SLOTS && c[k] != -1
        ensures 0 <= c[k] < ScanEnd(q, W) && |W[c[k]]| == |q| && Distance(q, W[c[k]]) == m
      {
        assert c[k] == r[k];
        var l :| 0 <= l < |cs| && cs[l] == r[k];
      }
      forall k, j | 0 <= k < SLOTS && c[k] != -1 && 0 <= j < ScanEnd(q, W) && |W[j]| == |q|
        ensures Distance(q, W[c[k]]) <= Distance(q, W[j])
      {
        var l :| 0 <= l < |cs| && cs[l] == j;
      }
    }
  }

  /** The filled slots form a prefix of closest and hold increasing dictionary indices. */
  lemma SuggestionsInOrder(q: seq<char>, W: seq<seq<char>>, c: seq<int>)
    requires Expected(q, W) == Incorrect(c)
    ensures |c| == SLOTS
    ensures forall k, l :: 0 <= k < l < SLOTS && c[l] != -1 ==> c[k] != -1 && c[k] < c[l]
  {
    var cs := Candidates(q, W, ScanEnd(q, W));
    CandidatesSpec(q, W, ScanEnd(q, W));
    if cs != [] {
      var m := MinDist(q, W, cs);
      AtDistSound(q, W, cs, m);
      AtDistIncreasing(q, W, cs, m);
      var r := AtDist(q, W, cs, m);
      forall k | 0 <= k < |r| ensures r[k] >= 0 {
      }
    }
  }

  /** Some slot is filled exactly when some equal-length entry was compared normally. */
  lemma SuggestionsExist(q: seq<char>, W: seq<seq<char>>, c: seq<int>)
    requires Expected(q, W) == Incorrect(c)
    ensures |c| == SLOTS
    ensures (exists j :: 0 <= j < ScanEnd(q, W) && |W[j]| == |q|) <==> c[0] != -1
  {
    var cs := Candidates(q, W, ScanEnd(q, W));
    CandidatesSpec(q, W, ScanEnd(q, W));
    if cs != [] {
      var m := MinDist(q, W, cs);
      MinDistSpec(q, W, cs);
      AtDistComplete(q, W, cs, m);
      var k0 :| 0 <= k0 < |cs| && m == Distance(q, W[cs[k0]]);
      assert cs[k0] in AtDist(q, W, cs, m);
    }
  }

  /** Ties are taken in dictionary order: an equal-length entry compared normally, tied with
      the minimum, is left out only when all five slots hold earlier entries. */
  lemma TiesDroppedOnlyWhenFull(q: seq<char>, W: seq<seq<char>>, c: seq<int>)
    requires Expected(q, W) == Incorrect(c)
    ensures |c| == SLOTS
    ensures forall j :: (0 <= j < ScanEnd(q, W) && |W[j]| == |q| && 0 <= c[0] < |W| &&
                         Distance(q, W[j]) == Distance(q, W[c[0]]) && j !in c) ==>
              c[SLOTS - 1] != -1 && c[SLOTS - 1] < j
  {
    var cs := Candidates(q, W, ScanEnd(q, W));
    CandidatesSpec(q, W, ScanEnd(q, W));
    if cs != [] {
      var m := MinDist(q, W, cs);
      AtDistSound(q, W, cs, m);
      AtDistComplete(q, W, cs, m);
      AtDistIncreasing(q, W, cs, m);
      var r := AtDist(q, W, cs, m);
      assert r != [] ==> c[0] == r[0];
      forall j | 0 <= j < ScanEnd(q, W) && |W[j]| == |q| && 0 <= c[0] < |W| &&
                 Distance(q, W[j]) == Distance(q, W[c[0]]) && j !in c
        ensures c[SLOTS - 1] != -1 && c[SLOTS - 1] < j
      {
        var l :| 0 <= l < |cs| && cs[l] == j;
        var p :| 0 <= p < |r| && r[p] == j;
        DroppedIsLate(r, c, p);
      }
    }
  }

  /** An element of an increasing list missing from its slots comes after all five. */
  lemma DroppedIsLate(r: seq<nat>, c: seq<int>, p: nat)
    requires Increasing(r) && c == Slots(r) && p < |r| && r[p] !in c
    ensures c[SLOTS - 1] != -1 && c[SLOTS - 1] < r[p]
  {
    assert forall k :: 0 <= k < SLOTS && k < |r| ==> c[k] == r[k] && r[k] in c;
    assert r[SLOTS - 1] < r[p];
  }

  /** The last entry, when the skip loop stops on it, is never suggested. */
  lemma TailNeverSuggested(q: seq<char>, W: seq<seq<char>>, c: seq<int>)
    requires TailBySkip(q, W) && Expected(q, W) == Incorrect(c)
    ensures |W| - 1 !in c
  {
    SuggestionsAreClosest(q, W, c);
  }

  /** With no entry as long as the query, the scan either reads past the list (fewer than two
      entries) or ends on the last entry: "correct" if the query is a prefix of it, otherwise
      "incorrect" with no suggestions. */
  lemma NoSameLengthEntry(q: seq<char>, W: seq<seq<char>>)
    requires NoNul(q)
    requires forall j :: 0 <= j < |W| ==> |W[j]| != |q|
    ensures |W| < 2 ==> Expected(q, W) == Undefined
    ensures |W| >= 2 ==> Expected(q, W) == if q <= W[|W| - 1] then Correct else Incorrect(Slots([]))
  {
    if |W| > 0 {
      var cs := Candidates(q, W, ScanEnd(q, W));
      CandidatesSpec(q, W, ScanEnd(q, W));
      DistanceZeroIffPrefix(q, W[|W| - 1]);
    }
  }
}

module Report {
  import opened Matcher

  /** The filled (non -1) slots of closest, in slot order. */
  function Filled(closest: seq<int>): seq<int>
  {
    if closest == [] then []
    else Filled(closest[..|closest| - 1]) + (if closest[|closest| - 1] != -1 then [closest[|closest| - 1]] else [])
  }

  /** The "incorrect" report loop: the words in the filled slots, in slot order. */
  method SuggestedWords(closest: seq<int>, wordlist: seq<seq<char>>) returns (words: seq<seq<char>>)
    requires forall k :: 0 <= k < |closest| ==> closest[k] == -1 || 0 <= closest[k] < |wordlist|
    ensures |words| == |Filled(closest)| <= |closest|
    ensures forall k :: 0 <= k < |words| ==>
              0 <= Filled(closest)[k] < |wordlist| && words[k] == wordlist[Filled(closest)[k]]
  {
    words := [];
    for i := 0 to |closest|
      invariant |words| == |Filled(closest[..i])| <= i
      invariant forall k :: 0 <= k < |words| ==>
                  0 <= Filled(closest[..i])[k] < |wordlist| && words[k] == wordlist[Filled(closest[..i])[k]]
    {
      assert closest[..i + 1][..i] == closest[..i];
      if closest[i] != -1 {
        words := words + [wordlist[closest[i]]];
      }
    }
    assert closest[..|closest|] == closest;
  }

  /** Filling the slots from a list of indices and reading the filled ones back gives the
      first SLOTS indices of the list. */
  lemma {:induction false} FilledOfSlots(s: seq<int>)
    requires forall k :: 0 <= k < |s| ==> s[k] >= 0
    ensures Filled(Slots(s)) == if |s| <= SLOTS then s else s[..SLOTS]
  {
    var c := Slots(s);
    var n := if |s| <= SLOTS then |s| else SLOTS;
    FilledPrefix(c, n, SLOTS);
    assert c[..SLOTS] == c;
    assert c[..n] == (if |s| <= SLOTS then s else s[..SLOTS]);
  }

  /** The words printed after "incorrect" are the first SLOTS entries, in dictionary order,
      among the normally compared equal-length entries at the minimum distance. */
  lemma ReportedSuggestions(q: seq<char>, W: seq<seq<char>>, c: seq<int>)
    requires Expected(q, W) == Incorrect(c)
    ensures var r := Closest(q, W, Candidates(q, W, ScanEnd(q, W)));
            Filled(c) == if |r| <= SLOTS then r else r[..SLOTS]
  {
    FilledOfSlots(Closest(q, W, Candidates(q, W, ScanEnd(q, W))));
  }

  /** Slots from n on are empty and those below n are filled: Filled gives the first n. */
  lemma {:induction false} FilledPrefix(c: seq<int>, n: nat, m: nat)
    requires n <= m <= |c|
    requires forall k :: 0 <= k < n ==> c[k] != -1
    requires forall k :: n <= k < m ==> c[k] == -1
    ensures Filled(c[..m]) == c[..n]
  {
    if m > 0 {
      assert c[..m][..m - 1] == c[..m - 1];
      if m > n {
        FilledPrefix(c, n, m - 1);
      } else {
        FilledPrefix(c, m - 1, m - 1);
        assert c[..m - 1] + [c[m - 1]] == c[..m];
      }
    }
  }
}
