/** main's outer loop: read a line, normalise it into a query, scan, report, repeat. */
module Session {
  import opened CString
  import opened Loader
  import opened Matcher

  predicate IsUpper(c: char)
  {
    'A' <= c <= 'Z'
  }

  /** tolower for ASCII letters. */
  function ToLower(c: char): (r: char)
    ensures !IsUpper(r)
    ensures r == c <==> !IsUpper(c)
    ensures IsUpper(c) ==> 'a' <= r <= 'z' && r as int - 'a' as int == c as int - 'A' as int
  {
    if IsUpper(c) then (c as int - 'A' as int + 'a' as int) as char else c
  }

  function LowerAll(s: seq<char>): (r: seq<char>)
    ensures |r| == |s|
    ensures forall k :: 0 <= k < |s| ==> r[k] == ToLower(s[k])
  {
    if s == [] then [] else [ToLower(s[0])] + LowerAll(s[1..])
  }

  /** The query main builds from an input line: every character lowercased, the last one
      (normally the '\n') replaced by the terminator. */
  function QueryOf(line: seq<char>): seq<char>
    requires |line| > 0
  {
    LowerAll(line[..|line| - 1])
  }

  datatype Query = EndSession | Word(text: seq<char>)

  /** wordlen = strlen(word) - 1; stop on an empty line; lowercase the buffer in place;
      cut it at wordlen. */
  method NormalizeQuery(line: seq<char>) returns (q: Query)
    requires |line| > 0
    ensures q == EndSession <==> |line| == 1
    ensures q.Word? ==> |q.text| == |line| - 1
    ensures q.Word? ==> forall k :: 0 <= k < |q.text| ==> q.text[k] == ToLower(line[k])
    ensures q.Word? ==> q.text == QueryOf(line)
  {
    var wordlen := |line| - 1;
    if wordlen == 0 {
      return EndSession;
    }
    var word := line;
    for k := 0 to |word|
      invariant |word| == |line|
      invariant forall m :: 0 <= m < k ==> word[m] == ToLower(line[m])
      invariant forall m :: k <= m < |word| ==> word[m] == line[m]
    {
      word := word[k := ToLower(word[k])];
    }
    q := Word(word[..wordlen]);
    assert q.text == QueryOf(line);
  }

  /** Lowercasing a word that holds no capital letter changes nothing. */
  lemma LowerAllKeepsLower(s: seq<char>)
    requires forall k :: 0 <= k < |s| ==> !IsUpper(s[k])
    ensures LowerAll(s) == s
  {
  }

  /** The queries of a session, in order: each input line in turn and, once the lines run
      out, the query buffer, which fgets then leaves as it was, normalised again. The session
      ends at a line that holds only its last character (an empty line). */
  function Queries(lines: seq<seq<char>>, buffer: seq<char>): seq<seq<char>>
    decreases |lines|, |buffer|
  {
    var line := if lines != [] then lines[0] else buffer;
    if |line| <= 1 then []
    else
      var q := QueryOf(line);
      [q] + Queries(if lines != [] then lines[1..] else [], q)
  }

  /** The verdicts given to a run of queries: one per query, up to and including the first
      scan that reads past the list, after which the program has no defined behaviour. */
  function Answers(W: seq<seq<char>>, qs: seq<seq<char>>): seq<Verdict>
  {
    if qs == [] then []
    else
      var v := Expected(qs[0], W);
      [v] + (if v == Undefined then [] else Answers(W, qs[1..]))
  }

  /** One round of the session: the line read is the next input line, or at end of input the
      stale buffer. Too short a line ends the session; otherwise its query comes next. */
  lemma QueriesStep(lines: seq<seq<char>>, buffer: seq<char>, line: seq<char>, rest: seq<seq<char>>)
    requires lines == [] ==> line == buffer && rest == []
    requires lines != [] ==> lines == [line] + rest
    ensures |line| <= 1 ==> Queries(lines, buffer) == []
    ensures |line| > 1 ==> Queries(lines, buffer) == [QueryOf(line)] + Queries(rest, QueryOf(line))
  {
    if lines != [] {
      assert lines[0] == line && lines[1..] == rest;
    }
  }

  /** The k-th query, for k below the number of lines, is the k-th line normalised; the
      queries stop before the lines run out only at a line holding nothing but its last
      character. */
  lemma {:induction false} QueriesAt(lines: seq<seq<char>>, buffer: seq<char>)
    ensures forall k :: 0 <= k < |Queries(lines, buffer)| && k < |lines| ==>
              |lines[k]| > 1 && Queries(lines, buffer)[k] == QueryOf(lines[k])
    ensures |Queries(lines, buffer)| < |lines| ==> |lines[|Queries(lines, buffer)|]| <= 1
    decreases |lines|
  {
    if lines != [] {
      QueriesStep(lines, buffer, lines[0], lines[1..]);
      if |lines[0]| > 1 {
        var q := QueryOf(lines[0]);
        QueriesAt(lines[1..], q);
        var qs := Queries(lines, buffer);
        var rest := Queries(lines[1..], q);
        assert forall k :: 1 <= k < |qs| ==> qs[k] == rest[k - 1];
        if |qs| < |lines| {
          assert lines[|qs|] == lines[1..][|rest|];
        }
      }
    }
  }

  /** When no input line is empty, the session goes on after the last line with the stale
      buffer, which holds the last query. */
  lemma {:induction false} QueriesThenStale(lines: seq<seq<char>>, buffer: seq<char>)
    requires lines != []
    requires forall k :: 0 <= k < |lines| ==> |lines[k]| > 1
    ensures |Queries(lines, buffer)| >= |lines|
    ensures Queries(lines, buffer)[|lines|..] == Queries([], QueryOf(lines[|lines| - 1]))
    decreases |lines|
  {
    var q := QueryOf(lines[0]);
    QueriesStep(lines, buffer, lines[0], lines[1..]);
    var qs := Queries(lines, buffer);
    var rest := Queries(lines[1..], q);
    if |lines| > 1 {
      QueriesThenStale(lines[1..], q);
      assert lines[1..][|lines| - 2] == lines[|lines| - 1];
      assert qs[|lines|..] == rest[|lines| - 1..];
    }
  }

  /** At end of input the buffer still holds the last query s, lowercased: each further round
      drops its last character, so the remaining queries are s minus one, two, ... characters,
      down to a single character. */
  lemma {:induction false} ShrinkingAtEnd(s: seq<char>)
    requires forall k :: 0 <= k < |s| ==> !IsUpper(s[k])
    ensures |Queries([], s)| == if |s| > 1 then |s| - 1 else 0
    ensures forall k :: 0 <= k < |Queries([], s)| ==> Queries([], s)[k] == s[..|s| - 1 - k]
    decreases |s|
  {
    QueriesStep([], s, s, []);
    if |s| > 1 {
      var q := QueryOf(s);
      LowerAllKeepsLower(s[..|s| - 1]);
      assert q == s[..|s| - 1];
      ShrinkingAtEnd(q);
      var qs := Queries([], s);
      var rest := Queries([], q);
      forall k | 0 <= k < |qs|
        ensures qs[k] == s[..|s| - 1 - k]
      {
        if k == 0 {
          assert s[..|s| - 1 - k] == q;
        } else {
          var j := k - 1;
          assert qs[k] == rest[j];
          assert q[..|q| - 1 - j] == s[..|s| - 1 - k];
        }
      }
    }
  }

  /** A session whose input holds no empty line does not stop at end of input: with q the last
      query, it goes on checking q without its last character, then without two, and so on,
      down to a single character. */
  lemma EndOfInput(lines: seq<seq<char>>, buffer: seq<char>)
    requires lines != []
    requires forall k :: 0 <= k < |lines| ==> |lines[k]| > 1
    ensures var q := QueryOf(lines[|lines| - 1]);
            |Queries(lines, buffer)| == |lines| + (if |q| > 1 then |q| - 1 else 0) &&
            forall k :: |lines| <= k < |Queries(lines, buffer)| ==>
              Queries(lines, buffer)[k] == q[..|q| - 1 - (k - |lines|)]
  {
    var q := QueryOf(lines[|lines| - 1]);
    QueriesThenStale(lines, buffer);
    ShrinkingAtEnd(q);
    var qs := Queries(lines, buffer);
    forall k | |lines| <= k < |qs|
      ensures qs[k] == q[..|q| - 1 - (k - |lines|)]
    {
      assert qs[k] == qs[|lines|..][k - |lines|];
    }
  }

  /** The verdicts of a run of queries, unfolded once. */
  lemma AnswersCons(W: seq<seq<char>>, q: seq<char>, more: seq<seq<char>>)
    ensures Expected(q, W) == Undefined ==> Answers(W, [q] + more) == [Undefined]
    ensures Expected(q, W) != Undefined ==> Answers(W, [q] + more) == [Expected(q, W)] + Answers(W, more)
  {
    assert ([q] + more)[0] == q && ([q] + more)[1..] == more;
  }

  /** The k-th verdict answers the k-th query. */
  lemma {:induction false} AnswersAt(W: seq<seq<char>>, qs: seq<seq<char>>)
    ensures |Answers(W, qs)| <= |qs|
    ensures forall k :: 0 <= k < |Answers(W, qs)| ==> Answers(W, qs)[k] == Expected(qs[k], W)
  {
    if qs != [] {
      assert qs == [qs[0]] + qs[1..];
      AnswersCons(W, qs[0], qs[1..]);
      if Expected(qs[0], W) != Undefined {
        AnswersAt(W, qs[1..]);
        var vs := Answers(W, qs);
        var rest := Answers(W, qs[1..]);
        assert forall k :: 1 <= k < |vs| ==> vs[k] == rest[k - 1];
      }
    }
  }

  /** Only the last verdict can be Undefined. */
  lemma {:induction false} AnswersUndefinedLast(W: seq<seq<char>>, qs: seq<seq<char>>)
    ensures forall k :: 0 <= k < |Answers(W, qs)| - 1 ==> Answers(W, qs)[k] != Undefined
  {
    if qs != [] {
      assert qs == [qs[0]] + qs[1..];
      AnswersCons(W, qs[0], qs[1..]);
      var v := Expected(qs[0], W);
      if v != Undefined {
        AnswersUndefinedLast(W, qs[1..]);
        var vs := Answers(W, qs);
        var rest := Answers(W, qs[1..]);
        assert vs == [v] + rest;
        forall k | 0 <= k < |vs| - 1
          ensures vs[k] != Undefined
        {
          if k > 0 {
            assert vs[k] == rest[k - 1];
          }
        }
      }
    }
  }

  /** The verdicts stop short of the queries only after a scan that read past the list. */
  lemma {:induction false} AnswersStopEarly(W: seq<seq<char>>, qs: seq<seq<char>>)
    ensures |Answers(W, qs)| < |qs| ==>
              |Answers(W, qs)| > 0 && Answers(W, qs)[|Answers(W, qs)| - 1] == Undefined
  {
    if qs != [] {
      assert qs == [qs[0]] + qs[1..];
      AnswersCons(W, qs[0], qs[1..]);
      var v := Expected(qs[0], W);
      if v != Undefined {
        AnswersStopEarly(W, qs[1..]);
        var vs := Answers(W, qs);
        var rest := Answers(W, qs[1..]);
        assert vs == [v] + rest;
        if |vs| < |qs| {
          assert |rest| < |qs[1..]|;
          assert vs[|vs| - 1] == rest[|rest| - 1];
        }
      }
    }
  }

  /** After a round whose verdict v does not end the session, the verdicts so far grow by v. */
  lemma SessionGoesOn(W: seq<seq<char>>, all: seq<seq<char>>, verdicts: seq<Verdict>,
                      q: seq<char>, more: seq<seq<char>>)
    requires Expected(q, W) != Undefined
    requires verdicts + Answers(W, [q] + more) == Answers(W, all)
    ensures (verdicts + [Expected(q, W)]) + Answers(W, more) == Answers(W, all)
  {
    AnswersCons(W, q, more);
    assert verdicts + ([Expected(q, W)] + Answers(W, more)) == (verdicts + [Expected(q, W)]) + Answers(W, more);
  }

  /** The interactive session over standard input: read a line into the buffer, normalise it,
      scan, report; diff, closest, i and foundClosest are reset and index carried over. At end
      of input fgets leaves the buffer unchanged, so the last query is normalised again. */
  method RunSession(wordlist: seq<seq<char>>, input: seq<char>) returns (verdicts: seq<Verdict>)
    ensures verdicts == Answers(wordlist, Queries(Chunks(input), []))
  {
    ghost var all := Queries(Chunks(input), []);
    assert input[0..] == input;
    verdicts := [];
    var word: seq<char> := [];
    var index := 0;
    var pos := 0;
    ghost var todo := Chunks(input);
    while true
      invariant pos <= |input| && todo == Chunks(input[pos..])
      invariant |word| < MAX_WORD_LEN
      invariant verdicts + Answers(wordlist, Queries(todo, word)) == Answers(wordlist, all)
      decreases |input| - pos, |word|
    {
      var line, next := Fgets(input, pos);
      ghost var rest: seq<seq<char>> := [];
      if pos < |input| {
        ChunkLenBound(input[pos..]);
        rest := Chunks(input[next..]);
      } else {
        // fgets at end of input returns NULL and leaves the buffer as it was
        assert input[pos..] == [];
        line := word;
      }
      QueriesStep(todo, word, line, rest);
      if |line| <= 1 {
        // an empty line ends the session, and so does end of input before the first query
        assert verdicts + [] == verdicts;
        if line == [] {
          return;
        }
      }
      var q := NormalizeQuery(line);
      if q == EndSession {
        return;
      }
      var v;
      v, index := CheckWord(q.text, wordlist, index);
      AnswersCons(wordlist, q.text, Queries(rest, q.text));
      if v == Undefined {
        verdicts := verdicts + [v];
        return;
      }
      SessionGoesOn(wordlist, all, verdicts, q.text, Queries(rest, q.text));
      verdicts := verdicts + [v];
      word := q.text;
      pos := next;
      todo := rest;
    }
  }

  lemma ChunkLenBound(s: seq<char>)
    requires |s| > 0
    ensures 0 < |s[..ChunkLen(s)]| < MAX_WORD_LEN
  {
  }
}
