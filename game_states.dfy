/** The solver's state: the guesses so far, the words that could still be
    the answer, and the words allowed as the next guess. A guess is scored by
    how the remaining candidates split up over the hints it would draw. */
module GameStates {

  import opened Hints
  import opened Guesses
  import opened WordLists
  import opened Sums

  /** Every word of s is at least n letters long, so that a guess of n
      letters can be scored against any of them. */
  predicate Fits(s: set<Word>, n: nat) {
    forall w :: w in s ==> n <= |w|
  }

  /** The hints a candidate would give the guess. On a candidate shorter
      than the guess `Hint.make` fails; `Fits` keeps such words away. */
  function HintsFor(guess: Word): Word -> seq<Hint> {
    c => if |guess| <= |c| then Feedback(c, guess) else []
  }

  /** The candidates, other than the guess itself, that would answer the
      guess with the hints key. */
  function Cluster(cands: set<Word>, guess: Word, key: seq<Hint>): set<Word>
    requires Fits(cands, |guess|)
  {
    Preimage(cands - {guess}, HintsFor(guess), key)
  }

  /** For each outcome, how many candidates other than the guess produce it. */
  function ClusterSizes(cands: set<Word>, guess: Word): map<seq<Hint>, nat>
    requires Fits(cands, |guess|)
  {
    Group(cands - {guess}, HintsFor(guess))
  }

  /** The score of a guess against a set of candidates: its clusters, and
      the sum of the squares of their sizes. */
  ghost function Scored(cands: set<Word>, guess: Word): Score
    requires Fits(cands, |guess|)
  {
    var sizes := ClusterSizes(cands, guess);
    Score(guess, SumOfSquares(sizes), sizes)
  }

  datatype Score = Score(word: Word, expectedSize: nat, clusterSizes: map<seq<Hint>, nat>) {

    /** `compareTo`: the smaller expected size is the better score. */
    function CompareTo(that: Score): (r: int)
      ensures -1 <= r <= 1
      ensures r < 0 <==> expectedSize < that.expectedSize
      ensures r == 0 <==> expectedSize == that.expectedSize
    {
      if expectedSize < that.expectedSize then -1
      else if expectedSize == that.expectedSize then 0
      else 1
    }

    /** `worst`: an outcome with the largest cluster. */
    ghost function Worst(): (key: seq<Hint>)
      requires clusterSizes != map[]
      ensures key in clusterSizes
      ensures forall k :: k in clusterSizes ==> clusterSizes[k] <= clusterSizes[key]
    {
      var sizes := clusterSizes;
      MinExists(sizes.Keys, k => if k in sizes then -(sizes[k] as int) else 0);
      var key :| key in sizes && forall k :: k in sizes ==> sizes[k] <= sizes[key];
      key
    }

    /** `is`: whether this score is for the given word. */
    predicate Is(answer: Word) {
      word == answer
    }
  }

  /** The `Score` constructor: the expected size is the sum of the squares
      of the cluster sizes. */
  method NewScore(word: Word, clusterSizes: map<seq<Hint>, nat>) returns (s: Score)
    ensures s.word == word && s.clusterSizes == clusterSizes
    ensures s.expectedSize == SumOfSquares(clusterSizes)
  {
    var sz := 0;
    var keys := clusterSizes.Keys;
    assert Restrict(clusterSizes, keys) == clusterSizes;
    while keys != {}
      invariant keys <= clusterSizes.Keys
      invariant sz + SumOfSquares(Restrict(clusterSizes, keys)) == SumOfSquares(clusterSizes)
      decreases keys
    {
      var k :| k in keys;
      var size := clusterSizes[k];
      SumSplit(Restrict(clusterSizes, keys), Square, k);
      assert Restrict(clusterSizes, keys) - {k} == Restrict(clusterSizes, keys - {k});
      sz := sz + size * size;
      keys := keys - {k};
    }
    assert Restrict(clusterSizes, keys) == map[];
    s := Score(word, sz, clusterSizes);
  }

  function Restrict<K, V>(m: map<K, V>, keys: set<K>): map<K, V> {
    map k | k in keys && k in m :: m[k]
  }

  datatype GameState = GameState(guesses: seq<Guess>, candidates: WordList, options: WordList) {

    /** `score`: groups the candidates by the hints they give the guess,
        skipping the guess itself. */
    method ScoreGuess(guess: Word) returns (s: Score)
      requires Fits(candidates.words, |guess|)
      ensures s == Scored(candidates.words, guess)
    {
      var clusterSizes: map<seq<Hint>, nat> := map[];
      var rest := candidates.words;
      assert Group({}, HintsFor(guess)) == map[];
      while rest != {}
        invariant rest <= candidates.words
        invariant clusterSizes == ClusterSizes(candidates.words - rest, guess)
        decreases rest
      {
        var c :| c in rest;
        ClusterStep(candidates.words, rest, c, guess);
        if c != guess {
          var h := Make(c, guess);
          clusterSizes := clusterSizes[h := if h in clusterSizes then clusterSizes[h] + 1 else 1];
        }
        rest := rest - {c};
      }
      assert candidates.words - rest == candidates.words;
      s := NewScore(guess, clusterSizes);
    }

    /** `chooseNextGuess`: a score of least expected size among the
        options. Which of several equally good options the source returns
        depends on stream order and is not modelled. */
    ghost function ChooseNextGuess(): (best: Score)
      requires options.words != {}
      requires forall o :: o in options.words ==> Fits(candidates.words, |o|)
      ensures best.word in options.words
      ensures best == Scored(candidates.words, best.word)
      ensures forall o :: o in options.words ==> best.CompareTo(Scored(candidates.words, o)) <= 0
    {
      var cands := candidates.words;
      MinExists(options.words, o => if Fits(cands, |o|) then Scored(cands, o).expectedSize else 0);
      var o :| o in options.words &&
        forall o' :: o' in options.words ==> Scored(cands, o).expectedSize <= Scored(cands, o').expectedSize;
      Scored(cands, o)
    }

    /** `nextState`: records the guess, keeps the candidates consistent
        with it and, in hard mode, only the options it allows. */
    function NextState(g: Guess, hardMode: bool): (next: GameState)
      requires g.Valid()
      requires Fits(candidates.words, |g.word|) && Fits(options.words, |g.word|)
      ensures next.guesses == guesses + [g]
      ensures forall w :: next.candidates.Contains(w) <==> candidates.Contains(w) && g.IsConsistentWith(w)
      ensures hardMode ==> forall w :: next.options.Contains(w) <==> options.Contains(w) && g.Admits(w)
      ensures !hardMode ==> next.options == options
    {
      GameState(guesses + [g],
                candidates.Select(w requires |g.word| <= |w| => g.IsConsistentWith(w)),
                if hardMode then options.Select(w requires |g.word| <= |w| => g.Admits(w)) else options)
    }
  }

  /** Scoring one more candidate c: the guess itself changes nothing, any
      other word adds one to the count of the hints it gives. */
  lemma ClusterStep(cands: set<Word>, rest: set<Word>, c: Word, guess: Word)
    requires Fits(cands, |guess|) && c in rest && rest <= cands
    ensures var m := ClusterSizes(cands - rest, guess);
      var h := Feedback(c, guess);
      ClusterSizes(cands - (rest - {c}), guess) ==
        if c == guess then m else m[h := if h in m then m[h] + 1 else 1]
  {
    var done := cands - rest - {guess};
    if c != guess {
      GroupAdd(done, HintsFor(guess), c);
      assert done + {c} == cands - (rest - {c}) - {guess};
    } else {
      assert done == cands - (rest - {c}) - {guess};
    }
  }

  /** The clusters share out every candidate except the guess. */
  lemma ClusterTotal(cands: set<Word>, guess: Word)
    requires Fits(cands, |guess|)
    ensures Total(ClusterSizes(cands, guess)) == |cands - {guess}|
  {
    GroupTotal(cands - {guess}, HintsFor(guess));
  }

  /** The expected size lies between the number of candidates other than
      the guess and its square. */
  lemma ScoreBounds(cands: set<Word>, guess: Word)
    requires Fits(cands, |guess|)
    ensures |cands - {guess}| <= Scored(cands, guess).expectedSize <= |cands - {guess}| * |cands - {guess}|
  {
    ClusterTotal(cands, guess);
    SquaresBetween(ClusterSizes(cands, guess));
  }

  /** The outcomes are exactly the hints some candidate other than the guess
      gives, every cluster is non-empty, and each such candidate lies in the
      cluster of its own hints. */
  lemma ClusterCovers(cands: set<Word>, guess: Word)
    requires Fits(cands, |guess|)
    ensures forall key :: key in ClusterSizes(cands, guess) <==>
      exists c :: c in cands && c != guess && Feedback(c, guess) == key
    ensures forall key :: key in ClusterSizes(cands, guess) ==>
      ClusterSizes(cands, guess)[key] == |Cluster(cands, guess, key)| >= 1
    ensures forall c :: c in cands && c != guess ==> c in Cluster(cands, guess, Feedback(c, guess))
  {
    var f := HintsFor(guess);
    GroupKeys(cands - {guess}, f);
    assert forall c :: c in cands ==> f(c) == Feedback(c, guess);
  }

  /** With words of one length, no candidate other than the guess draws
      all greens, so that outcome never forms a cluster. */
  lemma NoAllGreenCluster(cands: set<Word>, guess: Word)
    requires forall c :: c in cands ==> |c| == |guess|
    ensures Fits(cands, |guess|) && AllGreen(|guess|) !in ClusterSizes(cands, guess)
  {
    forall c | c in cands && c != guess ensures Feedback(c, guess) != AllGreen(|guess|) {
      AllGreenIff(c, guess);
    }
    ClusterCovers(cands, guess);
  }

  /** A score is for the answer exactly when its word draws all greens. */
  lemma IsMeansAllGreen(s: Score, answer: Word)
    requires |s.word| == |answer|
    ensures s.Is(answer) <==> Feedback(answer, s.word) == AllGreen(|answer|)
  {
    AllGreenIff(answer, s.word);
  }

  /** Hints that can be played one after another from s: each is well formed
      and no longer than any candidate or option. */
  predicate Playable(s: GameState, clues: seq<Guess>) {
    forall i :: 0 <= i < |clues| ==>
      clues[i].Valid() && Fits(s.candidates.words, |clues[i].word|) && Fits(s.options.words, |clues[i].word|)
  }

  /** The state after calling `nextState` once per guess, in order. */
  function Play(s: GameState, clues: seq<Guess>, hardMode: bool): (t: GameState)
    requires Playable(s, clues)
    ensures t.guesses == s.guesses + clues
    ensures t.candidates.words <= s.candidates.words
    ensures t.options.words <= s.options.words
    ensures !hardMode ==> t.options == s.options
    decreases |clues|
  {
    if clues == [] then s
    else
      assert s.guesses + [clues[0]] + clues[1..] == s.guesses + clues;
      Play(s.NextState(clues[0], hardMode), clues[1..], hardMode)
  }

  /** The candidates left are those consistent with every guess played. */
  lemma {:induction false} PlayCandidates(s: GameState, clues: seq<Guess>, hardMode: bool, w: Word)
    requires Playable(s, clues)
    ensures Play(s, clues, hardMode).candidates.Contains(w) <==>
      s.candidates.Contains(w) && forall i :: 0 <= i < |clues| ==> clues[i].IsConsistentWith(w)
    decreases |clues|
  {
    if clues != [] {
      var next := s.NextState(clues[0], hardMode);
      PlayCandidates(next, clues[1..], hardMode, w);
      assert forall i :: 0 < i < |clues| ==> clues[1..][i - 1] == clues[i];
    }
  }

  /** In hard mode the options left are those every guess played allows. */
  lemma {:induction false} PlayOptions(s: GameState, clues: seq<Guess>, w: Word)
    requires Playable(s, clues)
    ensures Play(s, clues, true).options.Contains(w) <==>
      s.options.Contains(w) && forall i :: 0 <= i < |clues| ==> clues[i].Admits(w)
    decreases |clues|
  {
    if clues != [] {
      var next := s.NextState(clues[0], true);
      PlayOptions(next, clues[1..], w);
      assert forall i :: 0 < i < |clues| ==> clues[1..][i - 1] == clues[i];
    }
  }

  /** When every hint was given by the true answer, the answer is never
      dropped from the candidates, nor in hard mode from the options. */
  lemma PlaySound(s: GameState, clues: seq<Guess>, hardMode: bool, answer: Word)
    requires Playable(s, clues)
    requires s.candidates.Contains(answer)
    requires forall i :: 0 <= i < |clues| ==> clues[i].hints == Feedback(answer, clues[i].word)
    ensures Play(s, clues, hardMode).candidates.Contains(answer)
    ensures hardMode && s.options.Contains(answer) ==> Play(s, clues, hardMode).options.Contains(answer)
  {
    forall i | 0 <= i < |clues|
      ensures clues[i].IsConsistentWith(answer) && clues[i].Admits(answer)
    {
      TrueAnswerAdmissible(clues[i].word, answer);
    }
    PlayCandidates(s, clues, hardMode, answer);
    if hardMode {
      PlayOptions(s, clues, answer);
    }
  }

  /** Guessing the answer itself, with words of one length, leaves the
      answer as the only candidate. */
  lemma SolvedLeavesAnswer(s: GameState, answer: Word, hardMode: bool)
    requires forall w :: w in s.candidates.words + s.options.words ==> |w| == |answer|
    requires s.candidates.Contains(answer)
    ensures Fits(s.candidates.words, |answer|) && Fits(s.options.words, |answer|)
    ensures Guess(answer, AllGreen(|answer|)).Valid()
    ensures s.NextState(Guess(answer, AllGreen(|answer|)), hardMode).candidates.words == {answer}
  {
    var g := Guess(answer, AllGreen(|answer|));
    var next := s.NextState(g, hardMode);
    forall w | w in next.candidates.words ensures w == answer {
      AllGreenIff(w, answer);
    }
    AllGreenIff(answer, answer);
  }
}
