/** findHamm: the distance between the query and a dictionary entry. */
module Hamming {
  import opened CString

  /** Number of positions k < n at which a and the C string b differ. */
  function Mismatches(a: seq<char>, b: seq<char>, n: nat): (r: nat)
    requires n <= |a|
    ensures r <= n
  {
    if n == 0 then 0
    else Mismatches(a, b, n - 1) + (if a[n - 1] != At(b, n - 1) then 1 else 0)
  }

  /** The Hamming distance findHamm promises: mismatching positions below strlen(a). */
  function Distance(a: seq<char>, b: seq<char>): (r: nat)
    ensures r <= |a|
  {
    Mismatches(a, b, |a|)
  }

  /** findHamm(word1, word2): start from strlen(word1), subtract one per matching position. */
  method FindHamm(word1: seq<char>, word2: seq<char>) returns (dist: int)
    ensures dist == Distance(word1, word2)
    ensures 0 <= dist <= |word1|
  {
    var wordlen := |word1|;
    dist := wordlen;
    for i := 0 to wordlen
      invariant dist == wordlen - i + Mismatches(word1, word2, i)
    {
      if word1[i] == At(word2, i) {
        dist := dist - 1;
      }
    }
  }

  lemma {:induction false} MismatchesZero(a: seq<char>, b: seq<char>, n: nat)
    requires n <= |a|
    ensures Mismatches(a, b, n) == 0 <==> forall k :: 0 <= k < n ==> a[k] == At(b, k)
  {
    if n > 0 {
      MismatchesZero(a, b, n - 1);
    }
  }

  /** A distance of 0 means word1 is a prefix of word2 (word1 holds no terminator). */
  lemma DistanceZeroIffPrefix(a: seq<char>, b: seq<char>)
    requires NoNul(a)
    ensures Distance(a, b) == 0 <==> a <= b
  {
    MismatchesZero(a, b, |a|);
  }

  /** For equal-length words, a distance of 0 means the words are equal. */
  lemma DistanceZeroIffEqual(a: seq<char>, b: seq<char>)
    requires |a| == |b|
    ensures Distance(a, b) == 0 <==> a == b
  {
    MismatchesZero(a, b, |a|);
  }

  /** For equal-length words the distance does not depend on the argument order. */
  lemma {:induction false} MismatchesSymmetric(a: seq<char>, b: seq<char>, n: nat)
    requires |a| == |b| && n <= |a|
    ensures Mismatches(a, b, n) == Mismatches(b, a, n)
  {
    if n > 0 {
      MismatchesSymmetric(a, b, n - 1);
    }
  }

  lemma DistanceSymmetric(a: seq<char>, b: seq<char>)
    requires |a| == |b|
    ensures Distance(a, b) == Distance(b, a)
  {
    MismatchesSymmetric(a, b, |a|);
  }
}
