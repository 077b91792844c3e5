/** loadWL: reading the word-list file with fgets and trimming each line with strtok. */
module Loader {
  import opened CString

  // ---------------------------------------------------------------------------
  // fgets(buf, MAX_WORD_LEN, stream)
  // ---------------------------------------------------------------------------

  /** The length of the line fgets reads from the front of s (s is not at end of file):
      the first n characters where n reaches MAX_WORD_LEN - 1, the end of s, or just past a '\n'. */
  function ChunkLen(s: seq<char>): (n: nat)
    requires |s| > 0
    ensures 1 <= n <= |s| && n <= MAX_WORD_LEN - 1
    ensures forall k :: 0 <= k < n - 1 ==> s[k] != '\n'
    ensures n < |s| ==> n == MAX_WORD_LEN - 1 || s[n - 1] == '\n'
  {
    ChunkLenFrom(s, 1)
  }

  function ChunkLenFrom(s: seq<char>, n: nat): (r: nat)
    requires 1 <= n <= |s| && n <= MAX_WORD_LEN - 1
    requires forall k :: 0 <= k < n - 1 ==> s[k] != '\n'
    ensures n <= r <= |s| && r <= MAX_WORD_LEN - 1
    ensures forall k :: 0 <= k < r - 1 ==> s[k] != '\n'
    ensures r < |s| ==> r == MAX_WORD_LEN - 1 || s[r - 1] == '\n'
    decreases |s| - n
  {
    if n == |s| || n == MAX_WORD_LEN - 1 || s[n - 1] == '\n' then n
    else ChunkLenFrom(s, n + 1)
  }

  /** The three properties of ChunkLen pin it down: any length that has them is ChunkLen. */
  lemma ChunkLenUnique(s: seq<char>, n: nat)
    requires |s| > 0
    requires 1 <= n <= |s| && n <= MAX_WORD_LEN - 1
    requires forall k :: 0 <= k < n - 1 ==> s[k] != '\n'
    requires n < |s| ==> n == MAX_WORD_LEN - 1 || s[n - 1] == '\n'
    ensures n == ChunkLen(s)
  {
  }

  /** The successive lines successive fgets calls return until end of file. */
  function Chunks(stream: seq<char>): (cs: seq<seq<char>>)
    decreases |stream|
  {
    if stream == [] then []
    else
      var n := ChunkLen(stream);
      [stream[..n]] + Chunks(stream[n..])
  }

  /** A line as fgets returns it: 1 to MAX_WORD_LEN - 1 characters, no '\n' before the last. */
  predicate LineRead(line: seq<char>)
  {
    1 <= |line| <= MAX_WORD_LEN - 1 && forall m :: 0 <= m < |line| - 1 ==> line[m] != '\n'
  }

  /** fgets stopped reading this line because the buffer was full or the line ended. */
  predicate LineComplete(line: seq<char>)
  {
    |line| == MAX_WORD_LEN - 1 || (|line| > 0 && line[|line| - 1] == '\n')
  }

  /** Every line fgets returns has the shape of LineRead and, unless it is the last line of
      the stream, is complete. */
  lemma {:induction false} ChunksShape(stream: seq<char>)
    ensures forall k :: 0 <= k < |Chunks(stream)| ==> LineRead(Chunks(stream)[k])
    ensures forall k :: 0 <= k < |Chunks(stream)| - 1 ==> LineComplete(Chunks(stream)[k])
    decreases |stream|
  {
    if stream != [] {
      var n := ChunkLen(stream);
      ChunksShape(stream[n..]);
      var cs := Chunks(stream);
      var rest := Chunks(stream[n..]);
      assert cs == [stream[..n]] + rest;
      assert LineRead(cs[0]);
      assert |cs| > 1 ==> LineComplete(cs[0]);
      assert forall k :: 1 <= k < |cs| ==> cs[k] == rest[k - 1];
    }
  }

  function Flatten(cs: seq<seq<char>>): seq<char>
  {
    if cs == [] then [] else cs[0] + Flatten(cs[1..])
  }

  /** Reading a stream line by line loses and duplicates nothing. */
  lemma {:induction false} ChunksFlatten(stream: seq<char>)
    ensures Flatten(Chunks(stream)) == stream
    decreases |stream|
  {
    if stream != [] {
      var n := ChunkLen(stream);
      var cs := Chunks(stream);
      assert cs[1..] == Chunks(stream[n..]);
      ChunksFlatten(stream[n..]);
      assert stream == stream[..n] + stream[n..];
    }
  }

  /** A line ending in its only '\n', short enough for the buffer, is read whole. */
  lemma ChunksStep(line: seq<char>, rest: seq<char>)
    requires 1 <= |line| <= MAX_WORD_LEN - 1 && line[|line| - 1] == '\n'
    requires forall k :: 0 <= k < |line| - 1 ==> line[k] != '\n'
    ensures Chunks(line + rest) == [line] + Chunks(rest)
  {
    var s := line + rest;
    ChunkLenUnique(s, |line|);
    assert s[..|line|] == line;
    assert s[|line|..] == rest;
  }

  /** Reading from position pos: the first line, then the lines after it. */
  lemma ChunksFrom(stream: seq<char>, pos: nat)
    requires pos < |stream|
    ensures Chunks(stream[pos..]) ==
              [stream[pos..][..ChunkLen(stream[pos..])]] + Chunks(stream[pos + ChunkLen(stream[pos..])..])
  {
    var rest := stream[pos..];
    assert rest[ChunkLen(rest)..] == stream[pos + ChunkLen(rest)..];
  }

  /** fgets(buf, MAX_WORD_LEN, stream) with the stream positioned at pos:
      an empty line stands for the NULL returned at end of file. */
  method Fgets(stream: seq<char>, pos: nat) returns (line: seq<char>, next: nat)
    requires pos <= |stream|
    ensures pos == |stream| ==> line == [] && next == pos
    ensures next == pos + |line| && next <= |stream|
    ensures pos < |stream| ==> line == stream[pos..][..ChunkLen(stream[pos..])]
    ensures pos < |stream| ==> Chunks(stream[pos..]) == [line] + Chunks(stream[next..])
  {
    line, next := [], pos;
    while next < |stream| && |line| < MAX_WORD_LEN - 1 && (line == [] || line[|line| - 1] != '\n')
      invariant pos <= next <= |stream| && line == stream[pos..next]
      invariant |line| <= MAX_WORD_LEN - 1
      invariant forall k :: 0 <= k < |line| - 1 ==> line[k] != '\n'
    {
      line, next := line + [stream[next]], next + 1;
    }
    if pos < |stream| {
      FgetsChunk(stream, pos, line);
    }
  }

  /** A suffix that starts with line: line is the element at i and rest what follows. */
  lemma SplitAt(cs: seq<seq<char>>, i: nat, line: seq<char>, rest: seq<seq<char>>)
    requires i <= |cs| && cs[i..] == [line] + rest
    ensures i < |cs| && cs[i] == line && cs[i + 1..] == rest
  {
    assert cs[i..][0] == line;
    assert cs[i + 1..] == cs[i..][1..];
  }

  /** A line read the way fgets reads it is the next chunk of the stream. */
  lemma FgetsChunk(stream: seq<char>, pos: nat, line: seq<char>)
    requires pos < |stream| && 1 <= |line| <= MAX_WORD_LEN - 1 && pos + |line| <= |stream|
    requires line == stream[pos..pos + |line|]
    requires forall k :: 0 <= k < |line| - 1 ==> line[k] != '\n'
    requires pos + |line| < |stream| ==> |line| == MAX_WORD_LEN - 1 || line[|line| - 1] == '\n'
    ensures line == stream[pos..][..ChunkLen(stream[pos..])]
    ensures Chunks(stream[pos..]) == [line] + Chunks(stream[pos + |line|..])
  {
    var rest := stream[pos..];
    assert forall k :: 0 <= k < |line| ==> rest[k] == line[k];
    ChunkLenUnique(rest, |line|);
    ChunksFrom(stream, pos);
  }

  // ---------------------------------------------------------------------------
  // strtok(buf, "\r\n")
  // ---------------------------------------------------------------------------

  predicate IsDelim(c: char)
  {
    c == '\r' || c == '\n'
  }

  /** Index of the first non-delimiter of s (|s| if there is none). */
  function TokenStart(s: seq<char>): (p: nat)
    ensures p <= |s|
    ensures forall k :: 0 <= k < p ==> IsDelim(s[k])
    ensures p < |s| ==> !IsDelim(s[p])
  {
    if s == [] || !IsDelim(s[0]) then 0 else 1 + TokenStart(s[1..])
  }

  /** Index of the first delimiter of s at or after p (|s| if there is none). */
  function DelimFrom(s: seq<char>, p: nat): (q: nat)
    requires p <= |s|
    ensures p <= q <= |s|
    ensures forall k :: p <= k < q ==> !IsDelim(s[k])
    ensures q < |s| ==> IsDelim(s[q])
    decreases |s| - p
  {
    if p == |s| || IsDelim(s[p]) then p else DelimFrom(s, p + 1)
  }

  /** The string left in the buffer after strtok(chunk, "\r\n"): cut at the first CR/LF
      that follows the first non-delimiter; a chunk made only of CR/LF is left unchanged. */
  function Trim(chunk: seq<char>): seq<char>
  {
    var p := TokenStart(chunk);
    if p == |chunk| then chunk else chunk[..DelimFrom(chunk, p)]
  }

  /** The stored entry is a prefix of the chunk; past the leading CR/LFs it holds no CR/LF,
      and it ends at a CR/LF of the chunk or at the chunk's end. */
  lemma TrimSpec(chunk: seq<char>)
    ensures Trim(chunk) <= chunk
    ensures TokenStart(chunk) == |chunk| ==> Trim(chunk) == chunk
    ensures TokenStart(chunk) < |chunk| ==>
              TokenStart(chunk) < |Trim(chunk)| &&
              (forall k :: TokenStart(chunk) <= k < |Trim(chunk)| ==> !IsDelim(Trim(chunk)[k])) &&
              (|Trim(chunk)| < |chunk| ==> IsDelim(chunk[|Trim(chunk)|]))
  {
  }

  /** A word without CR/LF keeps exactly its text when stored from "word\n" or "word\r\n". */
  lemma TrimLine(word: seq<char>, ending: seq<char>)
    requires |word| > 0 && forall k :: 0 <= k < |word| ==> !IsDelim(word[k])
    requires ending == "\n" || ending == "\r\n"
    ensures Trim(word + ending) == word
  {
    var s := word + ending;
    assert !IsDelim(s[0]);
    assert TokenStart(s) == 0;
    var q := DelimFrom(s, 0);
    assert IsDelim(s[|word|]);
    assert forall k :: 0 <= k < |word| ==> !IsDelim(s[k]);
  }

  // ---------------------------------------------------------------------------
  // loadWL
  // ---------------------------------------------------------------------------

  /** loadWL(input, wordlist): store the trimmed lines in rows 0, 1, ... and return their number.
      The source has no bound check; the caller must supply enough rows. */
  method LoadWordList(file: seq<char>, wordlist: array<seq<char>>) returns (listLen: nat)
    requires |Chunks(file)| <= wordlist.Length
    modifies wordlist
    ensures listLen == |Chunks(file)|
    ensures wordlist[..listLen] == TrimAll(Chunks(file))
    ensures wordlist[listLen..] == old(wordlist[listLen..])
  {
    ghost var cs := Chunks(file);
    ghost var rows := wordlist[..];
    assert file[0..] == file;
    var i, pos := 0, 0;
    var line, next := Fgets(file, pos);
    ghost var todo := cs;
    while line != []
      invariant pos <= next <= |file| && next == pos + |line| && i <= |cs|
      invariant todo == cs[i..]
      invariant line == [] <==> pos == |file|
      invariant pos < |file| ==> todo == [line] + Chunks(file[next..])
      invariant pos == |file| ==> todo == []
      invariant wordlist[..i] == TrimAll(cs[..i])
      invariant wordlist[i..] == rows[i..]
      decreases |file| - pos
    {
      ghost var rest := Chunks(file[next..]);
      SplitAt(cs, i, line, rest);
      TrimAllSnoc(cs, i);
      StoreRow(wordlist, i, Trim(line));
      i := i + 1;
      pos := next;
      line, next := Fgets(file, pos);
      todo := rest;
    }
    listLen := i;
    assert cs[..i] == cs;
  }

  /** wordlist[i] = entry, seen as a change of the row sequence. */
  method StoreRow(wordlist: array<seq<char>>, i: nat, entry: seq<char>)
    requires i < wordlist.Length
    modifies wordlist
    ensures wordlist[..i + 1] == old(wordlist[..i]) + [entry]
    ensures wordlist[i + 1..] == old(wordlist[i + 1..])
  {
    wordlist[i] := entry;
  }

  /** The entries stored for a list of chunks, one per chunk. */
  function TrimAll(cs: seq<seq<char>>): seq<seq<char>>
  {
    if cs == [] then [] else TrimAll(cs[..|cs| - 1]) + [Trim(cs[|cs| - 1])]
  }

  lemma TrimAllSnoc(cs: seq<seq<char>>, i: nat)
    requires i < |cs|
    ensures TrimAll(cs[..i + 1]) == TrimAll(cs[..i]) + [Trim(cs[i])]
  {
    assert cs[..i + 1][..i] == cs[..i];
  }

  /** Row k holds the k-th chunk with strtok's trim applied. */
  lemma {:induction false} TrimAllAt(cs: seq<seq<char>>)
    ensures |TrimAll(cs)| == |cs|
    ensures forall k :: 0 <= k < |cs| ==> TrimAll(cs)[k] == Trim(cs[k])
  {
    if cs != [] {
      TrimAllAt(cs[..|cs| - 1]);
    }
  }

  // ---------------------------------------------------------------------------
  // Round trip
  // ---------------------------------------------------------------------------

  /** A word-list file: each word followed by '\n'. */
  function JoinLines(words: seq<seq<char>>): seq<char>
  {
    if words == [] then [] else words[0] + "\n" + JoinLines(words[1..])
  }

  predicate IsStorableWord(w: seq<char>)
  {
    0 < |w| < MAX_WORD_LEN - 1 && forall k :: 0 <= k < |w| ==> !IsDelim(w[k])
  }

  lemma {:induction false} ChunksOfJoin(words: seq<seq<char>>)
    requires forall k :: 0 <= k < |words| ==> IsStorableWord(words[k])
    ensures |Chunks(JoinLines(words))| == |words|
    ensures forall k :: 0 <= k < |words| ==> Chunks(JoinLines(words))[k] == words[k] + "\n"
  {
    if words != [] {
      var w := words[0];
      assert forall k :: 0 <= k < |w| + 1 - 1 ==> (w + "\n")[k] != '\n' by {
        forall k | 0 <= k < |w| ensures (w + "\n")[k] != '\n' {
          assert !IsDelim(w[k]);
        }
      }
      assert JoinLines(words) == (w + "\n") + JoinLines(words[1..]);
      ChunksStep(w + "\n", JoinLines(words[1..]));
      ChunksOfJoin(words[1..]);
    }
  }

  /** Loading a file of storable words, one per line, gives back exactly those words in order. */
  lemma LoadRoundTrip(words: seq<seq<char>>)
    requires forall k :: 0 <= k < |words| ==> IsStorableWord(words[k])
    ensures |Chunks(JoinLines(words))| == |words|
    ensures forall k :: 0 <= k < |words| ==> Trim(Chunks(JoinLines(words))[k]) == words[k]
  {
    ChunksOfJoin(words);
    forall k | 0 <= k < |words|
      ensures Trim(Chunks(JoinLines(words))[k]) == words[k]
    {
      TrimLine(words[k], "\n");
    }
  }

  lemma ChunksOfLine(line: seq<char>, rest: seq<char>)
    requires line in {"apple\n", "applf\r\n", "banana\n"}
    ensures Chunks(line + rest) == [line] + Chunks(rest)
  {
    assert forall k :: 0 <= k < |line| - 1 ==> line[k] != '\n';
    ChunksStep(line, rest);
  }

  /** Lines ending in "\n" and in "\r\n" are both stored without their line ending. */
  lemma LoadExample()
    ensures Chunks("apple\n" + "applf\r\n" + "banana\n") == ["apple\n", "applf\r\n", "banana\n"]
  {
    var l1, l2, l3: seq<char> := "apple\n", "applf\r\n", "banana\n";
    var empty: seq<char> := [];
    assert l3 + empty == l3;
    assert l1 + l2 + l3 == l1 + (l2 + l3);
    ChunksOfLine(l3, empty);
    ChunksOfLine(l2, l3);
    ChunksOfLine(l1, l2 + l3);
  }

  /** A line of exactly MAX_WORD_LEN - 1 characters fills the buffer: fgets returns it without
      its '\n', the next call returns the '\n' alone, and strtok leaves that one unchanged, so
      the list gets the word and a second entry "\n". */
  lemma LongLineSplit(w: seq<char>)
    requires |w| == MAX_WORD_LEN - 1
    requires forall k :: 0 <= k < |w| ==> !IsDelim(w[k])
    ensures Chunks(w + "\n") == [w, "\n"]
    ensures TrimAll(Chunks(w + "\n")) == [w, "\n"]
  {
    var s := w + "\n";
    var nl: seq<char> := "\n";
    var empty: seq<char> := [];
    ChunkLenUnique(s, |w|);
    assert s[..|w|] == w && s[|w|..] == nl;
    assert nl + empty == nl;
    ChunksStep(nl, empty);
    assert Chunks(s) == [w, nl];
    assert TokenStart(w) == 0 && DelimFrom(w, 0) == |w|;
    assert Trim(w) == w[..|w|] == w;
    assert TokenStart(nl) == 1 + TokenStart(nl[1..]);
    assert Trim(nl) == nl;
    assert [w, nl][..1] == [w];
    assert TrimAll([w]) == TrimAll([]) + [Trim(w)];
    assert TrimAll([w, nl]) == TrimAll([w]) + [Trim(nl)];
  }

  lemma TrimExample()
    ensures Trim("apple\n") == "apple" && Trim("applf\r\n") == "applf" && Trim("banana\n") == "banana"
  {
    TrimLine("apple", "\n");
    TrimLine("applf", "\r\n");
    TrimLine("banana", "\n");
    assert "apple" + "\n" == "apple\n";
    assert "applf" + "\r\n" == "applf\r\n";
    assert "banana" + "\n" == "banana\n";
  }
}
