# Wordle solver: a Dafny model

This project models the scoring and narrowing engine of a Wordle solver, the
Java package `org.kohsuke.wordle`, in Dafny and proves properties of that
model. There is one module per class:

- `Hints` (`hints.dfy`) models `Hint`. Feedback is computed by the two-pass
  method `Make`:
  - pass one marks greens and collects the unmatched answer letters into a
    bag, a `seq<char>`;
  - pass two turns a non-green position yellow when its letter can still be
    removed from the bag.

  `Make` is proved equal to a declarative definition, `Feedback`. Under that
  definition, position `i` is yellow exactly when fewer earlier non-green
  positions hold `guess[i]` than the bag has copies of it. The module also
  has the ASCII parser `Parse` and the glyph printer `Print`.
- `Guesses` (`guesses.dfy`) models `Guess`:
  - a played word and its hints;
  - `IsConsistentWith`;
  - the two-loop bag check `AllowsInHardMode`, proved equal to the hard-mode
    rule `Admits`.
- `WordLists` (`word_lists.dfy`) models `WordList`, an immutable set of words
  with `Select`, `Join`, `Contains`, `Size` and the bounded `Sample`.
- `GameStates` (`game_states.dfy`) models `GameState` and its `Score`:
  - `ScoreGuess` groups the candidates by the hints they give the guess;
  - `NewScore` sums the squared cluster sizes;
  - `ChooseNextGuess` picks a minimal score;
  - `NextState` narrows the candidates and, in hard mode, the options;
  - `Play` chains successive `NextState` calls.
- `Sums` (`sums.dfy`) holds generic helpers for reductions over a hash map or
  set, whose order is unspecified:
  - grouping a set by a key (`Group`);
  - summing map values in any order (`Sum`);
  - existence of a minimum (`MinExists`).

Every Java class here has only `final` fields and builds new objects instead of
updating old ones. So `Hint`, `Guess`, `WordList`, `Score` and `GameState` are
datatypes. The loops of `make`, `allowsInHardMode`, `parse`, `print`,
`sample`, `score` and the `Score` constructor are methods with loop
invariants. Each is proved against a specification function.

`Hint.make(answer, guess)` reads `answer.charAt(i)` for every position of
`guess`. Its precondition is therefore `|guess| <= |answer|`; the words need
not have equal length. Lemmas that need equal lengths say so.

The doc comment of `Hint.parse` calls it the reverse of `Hint.print`. It is not:
`print` emits box glyphs, and `parse` accepts only the ASCII letters `*`, `-`
and `.`. The model proves the round trip that does hold, between `parse` and
the ASCII letters (`Parse`). It also proves that no printed glyph is a letter
`parse` accepts (`Print`).

## Model

| member | source | states |
|---|---|---|
| Hints.Make | src/main/java/org/kohsuke/wordle/Hint.java:39-68 | one hint per guess letter; green exactly where answer and guess agree; the result is the declarative `Feedback` |
| Hints.MarkGreens | src/main/java/org/kohsuke/wordle/Hint.java:44-54 | pass one: each position is green if the letters agree and grey otherwise; the bag holds, for every letter, its count among the answer letters of non-green positions |
| Hints.MarkYellows | src/main/java/org/kohsuke/wordle/Hint.java:57-65 | pass two, starting from pass one's hints and bag, produces exactly `Feedback`; the loop keeps the count of every letter left in the bag |
| Hints.RemoveFirst | src/main/java/org/kohsuke/wordle/Hint.java:63 | `List.remove(Object)` reports whether the letter was present and removes exactly one copy of it, leaving every other letter's count unchanged |
| Hints.YellowCount | src/main/java/org/kohsuke/wordle/Hint.java:57-65 | the number of yellows for a letter is the smaller of its non-green occurrences in the guess and its copies in the bag |
| Hints.GreensAndUnmatched | src/main/java/org/kohsuke/wordle/Hint.java:44-54 | greens of a letter plus that letter's bag copies equal its occurrences in the compared part of the answer |
| Hints.LetterBound | src/main/java/org/kohsuke/wordle/Hint.java:40-65 | for every letter, its greens plus its yellows are at most its occurrences in the answer |
| Hints.YellowsLeftmost | src/main/java/org/kohsuke/wordle/Hint.java:57-65 | yellows go to the leftmost non-green positions holding a letter: a yellow at j makes every earlier non-green position with the same letter yellow |
| Hints.AllGreenIff | src/main/java/org/kohsuke/wordle/Hint.java:39-68 | for words of equal length, the feedback is all green exactly when guess and answer are equal |
| Hints.ExampleWeepy | src/test/java/org/kohsuke/wordle/GuessTest.java:20 | "weepy" against "perky" gives grey, green, grey, yellow, green |
| Hints.ExampleFiber | src/test/java/org/kohsuke/wordle/GuessTest.java:19 | "fiber" against "perky" gives grey, grey, grey, yellow, yellow |
| Hints.ExampleDeals | src/test/java/org/kohsuke/wordle/GuessTest.java:18 | "deals" against "perky" gives grey, green, grey, grey, grey |
| Hints.ExampleMount | src/test/java/org/kohsuke/wordle/GuessTest.java:17 | "mount" against "perky" gives all grey |
| Hints.ExamplePerky | src/test/java/org/kohsuke/wordle/GuessTest.java:21 | "perky" against itself gives all green |
| Hints.Parse | src/main/java/org/kohsuke/wordle/Hint.java:81-96 | succeeds exactly when every character is `*`, `-` or `.`; on success its letters are the input, position by position, and it is the only such hint list; on failure the offset is the first other character |
| Hints.Print | src/main/java/org/kohsuke/wordle/Hint.java:70-76 | one box glyph per hint, in order, and no glyph is a character `parse` accepts |
| Guesses.Guess.IsConsistentWith | src/main/java/org/kohsuke/wordle/Guess.java:29-31 | true exactly when the candidate yields these hints; then the hints have the word's length, and the greens sit exactly where candidate and word agree |
| Guesses.Guess.AllowsInHardMode | src/main/java/org/kohsuke/wordle/Guess.java:37-60 | the result is the hard-mode rule `Admits`: greens repeated in place, and each yellow letter found among the non-green letters of w as often as it is marked |
| Guesses.FromAnswer | src/main/java/org/kohsuke/wordle/Guess.java:22-24 | the guess built from the true answer carries that answer's feedback; it is well formed, consistent with the answer, and admits the answer in hard mode |
| Guesses.TrueAnswerAdmissible | src/main/java/org/kohsuke/wordle/Guess.java:37-60 | after any guess, the answer that produced its hints passes the hard-mode check |
| Guesses.ConsistentIsAdmitted | src/main/java/org/kohsuke/wordle/Guess.java:29-60 | every candidate consistent with a clue is allowed as the next hard-mode guess |
| Guesses.AdmitsByLetter | src/main/java/org/kohsuke/wordle/Guess.java:37-60 | the hard-mode rule read per letter: a word is admitted exactly when the greens are kept and, for every letter, its yellows are at most the word's non-green occurrences of it |
| Guesses.GreyAdmitsAll | src/main/java/org/kohsuke/wordle/Guess.java:41-59 | a clue of only greys admits every word that is long enough |
| Guesses.GuessTestExamples | src/test/java/org/kohsuke/wordle/GuessTest.java:17-21 | the five consistency checks of the unit test hold |
| WordLists.WordList.Select | src/main/java/org/kohsuke/wordle/WordList.java:35-37 | the result is a subset, holding exactly the words that satisfy the predicate |
| WordLists.WordList.Join | src/main/java/org/kohsuke/wordle/WordList.java:68-72 | a word is in the result exactly when it is in either list |
| WordLists.WordList.Sample | src/main/java/org/kohsuke/wordle/WordList.java:58-66 | returns distinct words of the list: all of them when `upTo` is 0 or exceeds the size, otherwise exactly `upTo` |
| WordLists.SelectIdempotent | src/main/java/org/kohsuke/wordle/WordList.java:35-37 | selecting twice by one predicate equals selecting once |
| WordLists.SelectMonotone | src/main/java/org/kohsuke/wordle/WordList.java:35-37 | selecting from a sub-list gives a subset of selecting from the whole |
| WordLists.Sizes | src/main/java/org/kohsuke/wordle/WordList.java:54-72 | a selection is no larger than its list; a join is at least as large as either part and at most their sum |
| Sums.SumSplit | src/main/java/org/kohsuke/wordle/GameState.java:54-56 | a sum over map values does not depend on which entry is taken first, so any iteration order of `values()` gives the same sum |
| Sums.GroupAdd | src/main/java/org/kohsuke/wordle/GameState.java:141 | `merge(h, 1, Integer::sum)`: one more element adds one to the count for its own key, or creates that key with count 1, and changes no other count |
| Sums.GroupTotal | src/main/java/org/kohsuke/wordle/GameState.java:136-142 | the counts of a grouping add up to the size of the set |
| Sums.GroupKeys | src/main/java/org/kohsuke/wordle/GameState.java:134-142 | the keys of a grouping are exactly the keys of its elements, and every count is at least 1 |
| Sums.SquaresBetween | src/main/java/org/kohsuke/wordle/GameState.java:53-57 | the sum of squared counts lies between the total count and its square |
| Sums.MinExists | src/main/java/org/kohsuke/wordle/GameState.java:96 | a non-empty finite set has an element where the measure is least |
| GameStates.NewScore | src/main/java/org/kohsuke/wordle/GameState.java:49-58 | the expected size is the sum of the squares of the cluster sizes |
| GameStates.Score.CompareTo | src/main/java/org/kohsuke/wordle/GameState.java:60-64 | negative, zero or positive exactly as this expected size is smaller than, equal to or larger than the other |
| GameStates.Score.Worst | src/main/java/org/kohsuke/wordle/GameState.java:69-71 | for a non-empty cluster map, an outcome whose cluster is at least as large as every other |
| GameStates.IsMeansAllGreen | src/main/java/org/kohsuke/wordle/GameState.java:87-89 | for words of equal length, a score is for the answer exactly when its word draws all greens from that answer |
| GameStates.GameState.ScoreGuess | src/main/java/org/kohsuke/wordle/GameState.java:113-145 | the score maps each outcome to the number of candidates other than the guess producing it, and its expected size is the sum of squares of those counts |
| GameStates.ClusterStep | src/main/java/org/kohsuke/wordle/GameState.java:136-142 | one loop step: the guess itself leaves the cluster map unchanged; any other candidate adds one to the count of the hints it gives |
| GameStates.ClusterTotal | src/main/java/org/kohsuke/wordle/GameState.java:136-142 | the cluster sizes add up to the number of candidates, minus one if the guess is a candidate |
| GameStates.ScoreBounds | src/main/java/org/kohsuke/wordle/GameState.java:113-145 | the expected size is at least the number of candidates other than the guess and at most its square |
| GameStates.ClusterCovers | src/main/java/org/kohsuke/wordle/GameState.java:134-142 | outcomes are exactly the hints of candidates other than the guess; each count is the size of its cluster and at least 1; each such candidate lies in the cluster of its own hints |
| GameStates.NoAllGreenCluster | src/main/java/org/kohsuke/wordle/GameState.java:137-140 | with words of one length, the all-green outcome never forms a cluster |
| GameStates.GameState.ChooseNextGuess | src/main/java/org/kohsuke/wordle/GameState.java:95-97 | for non-empty options, the score of some option, computed as `score` would, that compares no worse than the score of any option |
| GameStates.GameState.NextState | src/main/java/org/kohsuke/wordle/GameState.java:150-157 | appends the guess; keeps exactly the candidates consistent with it; in hard mode keeps exactly the options it admits, otherwise keeps the options unchanged |
| GameStates.Play | src/main/java/org/kohsuke/wordle/GameState.java:150-157 | after successive calls to `nextState`, the guesses are appended in order, candidates and options only shrink, and outside hard mode the options stay the same |
| GameStates.PlayCandidates | src/main/java/org/kohsuke/wordle/GameState.java:155 | the candidates left are exactly the original ones consistent with every guess played |
| GameStates.PlayOptions | src/main/java/org/kohsuke/wordle/GameState.java:156 | in hard mode, the options left are exactly the original ones that every guess played admits |
| GameStates.PlaySound | src/main/java/org/kohsuke/wordle/GameState.java:155-156 | when every clue was produced by the true answer, the answer stays a candidate, and in hard mode it also stays an option |
| GameStates.SolvedLeavesAnswer | src/main/java/org/kohsuke/wordle/GameState.java:155 | with words of one length, guessing the answer and getting all greens leaves exactly the answer as candidate |

## Left out

- `App.java` is left out: console input, output and experiment driver.
- `WordList.fromResource` reads a file. A word list is given as a set.
- `WordList.stream` and `iterator` appear only as the set of words.
- `scoreStream` runs in parallel; scoring is modelled sequentially, one guess at a time.
- GameStates.GameState.ChooseNextGuess: only promises some minimal score. The tie the source picks depends on hash order and the parallel reduction. It is a ghost function over the scores `score` yields.
- GameStates.Score.Worst: only promises some largest cluster, for the same reason; it is a ghost function.
- `nextGuesses` is left out. It sorts the same scores for display only.
- `Score.expectedSize()`, a floating-point division, is left out.
- `Score.toString` and `GameState.toString` are left out: formatted text only.
- GameStates.NewScore: does not model 32-bit `int` overflow of the sum of squares. `ScoreBounds` bounds the sum by the square of the number of candidates, so it fits whenever there are at most 46340 candidates.
- Hints.Print: each glyph is one Unicode character. The Java string and its UTF-16 length are not modelled, and the `box` field appears only as `Box()`.
- Hints.Parse: the error is an offset in a result value, not a thrown `ParseException` with a message.
- Guesses.Guess.Valid: the constructor's `assert` is a predicate that callers pass around. Unlike Java with assertions disabled, a mismatched guess is not built and used.
- WordLists.WordList.Sample: negative `upTo`, which makes the `ArrayList` constructor throw, cannot occur, because `upTo` is a `nat`. Which words are taken, in hash-set order, is left unspecified.
