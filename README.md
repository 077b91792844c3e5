# Simple CLI spellchecker: a Dafny model

This project models `spellcheck.c`, a command-line spell checker. The program does four things:

- It loads a word list, one word per line, into a fixed array of 40-byte rows.
- It reads a query word from standard input.
- It lowercases the query and compares it with every dictionary entry of the same length by Hamming distance.
- It reports "correct" when it finds an exact match. Otherwise it reports "incorrect" with up to five suggestions: the first entries, in dictionary order, at the smallest distance it found.

It repeats this until the user enters an empty line.

The model follows the code and keeps its quirks:

- **The skip loop.** The loop that moves past entries of other lengths (lines 143-151) stops on the last index without looking at that entry's length. That entry is then only checked for a distance of 0, so:
  - a query that is a prefix of the last entry is reported correct;
  - the last entry is never suggested.
- **Reading past the list.** When the skip loop starts at the last index, it can run past the loaded rows. The model reports this as the verdict `Undefined`. It does the same for an empty word list.
- **The stale `index`.** `index` is not reset between queries (lines 258-273). The model carries it from query to query and proves that it never affects a verdict.

Modules:

- `CString`: buffer size and C-string reading conventions (`At` reads `'\0'` past the end).
- `Hamming`: `findHamm` as the loop method `FindHamm`, against the function `Distance`.
- `Loader`: `loadWL`.
  - `Fgets` is a loop that reads one line of at most 39 characters, ending at a `'\n'` or at end of input.
  - `Chunks` is the sequence of lines that successive `fgets` calls return.
  - `Trim` is the effect of `strtok(buf, "\r\n")` on a row.
  - `LoadWordList` fills an `array` of rows.
- `Matcher`: the per-query scan of `main`.
  - `CheckWord` runs the loop over a local `closest` array of five slots, and is proved equal to the reference outcome `Expected`.
  - `Expected` is built from the equal-length entries compared normally (`Candidates`), the minimum distance (`MinDist`) and the entries at that distance (`AtDist`), taking the first five (`Slots`).
  - `ScanState` is the loop invariant, maintained by one lemma per branch of the comparison.
- `MatcherFacts`: what a verdict means in terms of the query and the list.
- `Report`: the loop that prints the suggested words.
- `Session`: query normalisation and the outer loop of `main`.
  - `Queries` is the sequence of queries read from the lines of standard input and, once they run out, from the stale buffer.
  - `Answers` is the verdicts given to them, up to the first `Undefined`.
- `Scenarios`: concrete word lists.

In a few places the code does not do what the program sets out to do. The model follows the code:

- **Query "bat" against `["cat","cot","cut","dog"]`.** Only "cat" is at distance 1; "cot" and "cut" are at distance 2. So "cat" is the only suggestion, not all three (`Scenarios.OneSuggestion`).
- **No dictionary entry of the query's length.** The intended answer is "incorrect, no suggestions". The code gives one of three (`MatcherFacts.NoSameLengthEntry`):
  - `Undefined` with fewer than two entries;
  - "correct" when the query is a prefix of the last entry;
  - otherwise "incorrect" with no suggestions.
- **Case.** Matching is meant to ignore case, but the code lowercases only the query. An entry containing capitals therefore never matches exactly: "cat" against `["Cat","cot"]` is incorrect, with both entries suggested (`Scenarios.CapitalsNeverMatch`).
- **Long word-list lines.** A line of 39 characters plus its '\n' fills the `fgets` buffer. The '\n' is then read as a line of its own, and `strtok` leaves it unchanged, so the list gets a second entry "\n" (`Loader.LongLineSplit`).
- **End of standard input.** At end of input `fgets` returns NULL and leaves the buffer holding the last query, already cut (lines 242-256). The loop computes `wordlen` again and cuts one more character. So the program goes on checking the last query minus one, two, ... characters, and stops when one character is left (`Session.EndOfInput`).

## Model

| member | source | states |
|---|---|---|
| Hamming.Distance | spellcheck.c:48-51 | the distance is at most strlen(word1) |
| Hamming.FindHamm | spellcheck.c:44-67 | the loop returns strlen(word1) minus the positions where word1 and the C string word2 agree, i.e. `Distance`, between 0 and strlen(word1) |
| Hamming.DistanceZeroIffPrefix | spellcheck.c:58-66 | distance 0 holds exactly when word1 is a prefix of word2 |
| Hamming.DistanceZeroIffEqual | spellcheck.c:58-66 | for words of equal length, distance 0 holds exactly when they are equal |
| Hamming.DistanceSymmetric | spellcheck.c:58-64 | for words of equal length the distance does not depend on argument order |
| Loader.ChunkLen | spellcheck.c:31 | one fgets call reads 1 to 39 characters, with no '\n' before the last; it stops early only after 39 characters or after a '\n' |
| Loader.ChunkLenUnique | spellcheck.c:31 | those three properties determine the number of characters fgets reads |
| Loader.ChunksShape | spellcheck.c:31 | every line read has that shape, and every line except the last is full or ends in '\n' |
| Loader.ChunksFlatten | spellcheck.c:31 | the lines read, concatenated, give back the whole stream |
| Loader.Fgets | spellcheck.c:31 | the read loop returns the next line and the new position; at end of input it returns nothing; the remaining lines are this one followed by the lines after it |
| Loader.TrimSpec | spellcheck.c:34 | strtok leaves a prefix of the row. A row of only CR/LF is kept unchanged. Otherwise the row is cut at the first CR/LF after the first other character |
| Loader.TrimLine | spellcheck.c:34 | a word without CR/LF, followed by "\n" or "\r\n", is stored as exactly the word |
| Loader.LoadWordList | spellcheck.c:27-40 | returns the number of lines; rows 0..n-1 hold the trimmed lines in order; later rows are untouched |
| Loader.TrimAllAt | spellcheck.c:31-35 | row k of the loaded list is the k-th line with strtok's trim applied |
| Loader.LoadRoundTrip | spellcheck.c:27-40 | a file of words (1-38 characters, no CR/LF) one per line loads back as exactly those words |
| Loader.LoadExample | spellcheck.c:31-35 | "apple\n", "applf\r\n", "banana\n" are read as three lines |
| Loader.TrimExample | spellcheck.c:34 | those three lines are stored as "apple", "applf", "banana" |
| Loader.LongLineSplit | spellcheck.c:31-34 | a 39-character line and its '\n' are read as two lines, stored as the word and "\n" |
| Matcher.Slots | spellcheck.c:122-127 | closest has five slots; slot k holds the k-th listed index or -1 |
| Matcher.CandidatesSpec | spellcheck.c:141-151 | the entries compared normally are exactly the equal-length entries below the bound, in increasing order |
| Matcher.MinDistSpec | spellcheck.c:159-162 | diff ends as the smallest distance over the compared entries, attained by one of them |
| Matcher.AtDistSound | spellcheck.c:185-191 | every kept index is a compared entry at that distance |
| Matcher.AtDistComplete | spellcheck.c:185-191 | every compared entry at that distance is kept |
| Matcher.AtDistIncreasing | spellcheck.c:185-191 | kept indices stay in dictionary order |
| Matcher.StepNewMin | spellcheck.c:159-180 | a strictly closer entry empties closest, puts itself in slot 0 and sets index to 1 |
| Matcher.StepTie | spellcheck.c:185-191 | a tied entry takes slot index while index < 5 and is dropped afterwards |
| Matcher.StepFar | spellcheck.c:202-203 | a farther entry changes nothing |
| Matcher.FinishExact | spellcheck.c:164-168 | distance 0 on a compared entry means the verdict is correct |
| Matcher.FinishAtEnd | spellcheck.c:206-212 | reaching the end of the list gives "incorrect" with the current slots |
| Matcher.FinishTail | spellcheck.c:194-200 | the last entry reached by the skip loop gives "correct" only at distance 0, and otherwise leaves the slots |
| Matcher.FinishOverrun | spellcheck.c:143-151 | the skip loop running past the list gives Undefined |
| Matcher.SkipOtherLengths | spellcheck.c:143-151 | the skip loop passes only entries of other lengths. It stops on an equal-length entry, or on the last index (stopped), or runs past the list |
| Matcher.CompareEntry | spellcheck.c:153-200 | one comparison keeps the scan invariant, or ends the scan with the reference verdict |
| Matcher.SkipToCandidate | spellcheck.c:141-151 | skipping entries keeps the scan invariant, or the scan is Undefined |
| Matcher.CompareAndAdvance | spellcheck.c:153-212 | comparison, i++ and the end-of-list test keep the invariant or give the reference verdict |
| Matcher.CheckWord | spellcheck.c:119-213 | the whole scan, started from any stale index, reports exactly `Expected` |
| MatcherFacts.ExpectedCorrectIff | spellcheck.c:139-219 | "correct" holds exactly when the query is a dictionary entry, or the skip loop reaches the last entry and the query is a prefix of it |
| MatcherFacts.ExactAmongCompared | spellcheck.c:159-168 | a minimum distance of 0 among the compared entries means the query is one of them, and conversely |
| MatcherFacts.ExpectedUndefinedIff | spellcheck.c:143-151 | the scan reads past the list exactly when the list is empty, or when the last entry is not reached by the skip loop, differs in length from the query, and the query is not in the list |
| MatcherFacts.SuggestionsAreClosest | spellcheck.c:159-191 | every suggestion is a compared equal-length entry at the minimum distance over all compared entries, and that distance is not 0 |
| MatcherFacts.SuggestionsInOrder | spellcheck.c:171-191 | filled slots form a prefix of closest, in increasing dictionary order |
| MatcherFacts.SuggestionsExist | spellcheck.c:159-180 | slot 0 is filled exactly when some equal-length entry was compared |
| MatcherFacts.TiesDroppedOnlyWhenFull | spellcheck.c:188-191 | a tied entry is missing only when five earlier entries fill every slot |
| MatcherFacts.TailNeverSuggested | spellcheck.c:143-151 | the last entry reached by the skip loop is never suggested |
| MatcherFacts.NoSameLengthEntry | spellcheck.c:143-151 | with no equal-length entry: Undefined for fewer than two entries, else correct exactly when the query is a prefix of the last entry, else no suggestions |
| Report.SuggestedWords | spellcheck.c:230-236 | the printed words are the rows named by the filled slots, in slot order |
| Report.FilledOfSlots | spellcheck.c:230-236 | reading the filled slots back gives the first five listed indices |
| Report.ReportedSuggestions | spellcheck.c:225-236 | the printed suggestions are the first five compared entries, in dictionary order, at the minimum distance |
| Scenarios.ExactWordIsCorrect | spellcheck.c:164-168 | "cat" in ["cat","cot","cut","dog"] is correct |
| Scenarios.OneSuggestion | spellcheck.c:159-191 | "bat" in ["cat","cot","cut","dog"] gives the single suggestion "cat" |
| Scenarios.CapitalsNeverMatch | spellcheck.c:112-114 | "cat" against ["Cat","cot"] is incorrect with both entries suggested: entries are not lowercased |
| Scenarios.FiveOfSixTies | spellcheck.c:188-191 | six tied entries: only the first five are suggested |
| Scenarios.PrefixOfLastIsCorrect | spellcheck.c:146-150 | "cat" against ["xy","cattle"] is reported correct |
| Scenarios.LastEntryNotSuggested | spellcheck.c:146-150 | "bat" against ["cot","ab","cat"] suggests "cot" only, not the closer "cat" |
| Scenarios.SkipLoopOverrun | spellcheck.c:143-151 | "cow" against ["cat","dog","horse"] reads past the list |
| Session.ToLower | spellcheck.c:112-114 | tolower maps A-Z to a-z and leaves every other character |
| Session.LowerAll | spellcheck.c:112-114 | every character is lowercased, length kept |
| Session.NormalizeQuery | spellcheck.c:105-117 | a line of length 1 ends the session; otherwise the query is the line minus its last character, lowercased |
| Session.LowerAllKeepsLower | spellcheck.c:251-253 | lowercasing a word that holds no capital leaves it unchanged |
| Session.QueriesStep | spellcheck.c:242-256 | a line of at most one character ends the session; otherwise its normalised query comes next; at end of input the line read is the stale buffer |
| Session.QueriesAt | spellcheck.c:240-256 | the k-th query is the k-th input line normalised; the queries stop before the lines run out only at an empty line |
| Session.QueriesThenStale | spellcheck.c:242-256 | when no line is empty, the queries after the last line are those of the stale buffer holding the last query |
| Session.ShrinkingAtEnd | spellcheck.c:242-256 | from a stale buffer s without capitals, the queries are s minus one, two, ... characters, one fewer than the length of s |
| Session.EndOfInput | spellcheck.c:242-256 | after the last input line, the session checks the last query with one more character cut each round, down to a single character |
| Session.AnswersAt | spellcheck.c:139-273 | there are no more verdicts than queries, and the k-th verdict is the reference verdict of the k-th query |
| Session.AnswersUndefinedLast | spellcheck.c:143-151 | only the last verdict of a session can be Undefined |
| Session.AnswersStopEarly | spellcheck.c:143-151 | the verdicts stop before the queries run out only after a scan that read past the list |
| Session.RunSession | spellcheck.c:99-275 | the outer loop of main, with fgets leaving the buffer unchanged at end of input, produces exactly the answers to the session's queries, with the stale index carried over |

## Left out

- The command line and file errors are not modelled: the argument count check and the missing-file message (lines 72-86). The file and standard input are given as character sequences.
- Prompts and `printf` output are not modelled. The report is modelled as a verdict plus the suggested words.
- `LoadWordList` requires at least as many rows as lines in the file. The source has no bound check against MAX_WORDS, and overflowing it is undefined behaviour.
- `tolower` is modelled for ASCII only. Locale-dependent case mapping is not modelled.
- NUL characters inside the word list or on standard input are not modelled.
- Bytes of a row after its terminator are modelled as '\0'. In the program they are whatever the stack array held. They are read only when `findHamm` compares past the end of a shorter last entry. Only whether the distance is 0 matters there, and a terminator never equals a query character.
- A row past the loaded list is not modelled as data. Reading it is reported as `Undefined`, and the verdict is the same whatever that row holds.
- `RunSession` ends the session when standard input is empty before the first query. `fgets` then leaves the buffer uninitialised, and what the program does next is undefined.
- `RunSession` ends the session after a scan that reads past the list (`Undefined`), because the program's behaviour from there on is undefined.
- strtok's hidden saved position is not modelled: it is never used again after the call.
- The commented-out debug prints are not modelled.
