/** A played guess together with the hints it received, and the two checks
    it answers: whether a candidate answer would have produced these hints,
    and whether a word may be played next in hard mode. */
module Guesses {

  import opened Hints

  datatype Guess = Guess(word: Word, hints: seq<Hint>) {

    /** What the constructor asserts: one hint per letter. */
    predicate Valid() {
      |hints| == |word|
    }

    /** `isConsistentWith`: the candidate answer would have produced exactly
        these hints; such a candidate repeats the greens and no others. */
    predicate IsConsistentWith(answer: Word)
      requires |word| <= |answer|
      ensures IsConsistentWith(answer) ==> Valid()
      ensures IsConsistentWith(answer) ==>
                forall i :: 0 <= i < |word| ==> (hints[i] == Green <==> answer[i] == word[i])
    {
      Feedback(answer, word) == hints
    }

    /** How many positions before k are not green here and hold the letter c
        in w: the bag of letters w has left for the yellows. */
    function Free(w: Word, k: nat, c: char): nat
      requires k <= |hints| && k <= |w|
    {
      if k == 0 then 0
      else Free(w, k - 1, c) + (if hints[k - 1] != Green && w[k - 1] == c then 1 else 0)
    }

    /** The yellows of letter c among the first k hints. */
    function Demanded(k: nat, c: char): nat
      requires k <= |hints| && k <= |word|
    {
      Marked(hints, word, Yellow, k, c)
    }

    predicate GreensKept(w: Word)
      requires Valid() && |word| <= |w|
    {
      forall i :: 0 <= i < |hints| && hints[i] == Green ==> w[i] == word[i]
    }

    /** The hard-mode rule: every green is repeated in place, and every
        yellow letter occurs at least as often among the non-green positions
        of w as it is marked yellow here. */
    predicate Admits(w: Word)
      requires Valid() && |word| <= |w|
    {
      && GreensKept(w)
      && forall i :: 0 <= i < |hints| && hints[i] == Yellow ==>
           Demanded(|hints|, word[i]) <= Free(w, |hints|, word[i])
    }

    /** `allowsInHardMode`: collect the non-green letters of w into a bag,
        failing on a green w does not repeat, then take one letter out of
        the bag for every yellow, failing when it is not there. */
    method AllowsInHardMode(w: Word) returns (ok: bool)
      requires Valid() && |word| <= |w|
      ensures ok == Admits(w)
      ensures ok ==> forall i :: 0 <= i < |hints| && hints[i] == Green ==> w[i] == word[i]
    {
      var bag: seq<char> := [];
      var i := 0;
      while i < |hints|
        invariant 0 <= i <= |hints|
        invariant forall j :: 0 <= j < i && hints[j] == Green ==> w[j] == word[j]
        invariant forall c {:trigger Count(bag, c)} :: Count(bag, c) == Free(w, i, c)
      {
        if hints[i] == Green {
          if w[i] != word[i] {
            return false;
          }
        } else {
          forall c ensures Count(bag + [w[i]], c) == Count(bag, c) + if w[i] == c then 1 else 0 {
            CountAppend(bag, w[i], c);
          }
          bag := bag + [w[i]];
        }
        i := i + 1;
      }
      i := 0;
      while i < |hints|
        invariant 0 <= i <= |hints|
        invariant forall c {:trigger Count(bag, c)} :: Count(bag, c) + Demanded(i, c) == Free(w, |hints|, c)
      {
        if hints[i] == Yellow {
          var g := word[i];
          CountPositive(bag, g);
          var removal := RemoveFirst(bag, g);
          if !removal.1 {
            MarkedMonotone(hints, word, Yellow, i + 1, |hints|, g);
            return false;
          }
          bag := removal.0;
        }
        i := i + 1;
      }
      forall j | 0 <= j < |hints| && hints[j] == Yellow
        ensures Demanded(|hints|, word[j]) <= Free(w, |hints|, word[j])
      {
        assert Count(bag, word[j]) + Demanded(|hints|, word[j]) == Free(w, |hints|, word[j]);
      }
      return true;
    }
  }

  /** The constructor `Guess(guess, answer)`: the hints the answer gives the
      guess. Narrowing by it never loses the answer, and the answer stays a
      legal hard-mode guess. */
  method FromAnswer(word: Word, answer: Word) returns (g: Guess)
    requires |word| <= |answer|
    ensures g.word == word && g.hints == Feedback(answer, word)
    ensures g.Valid() && g.IsConsistentWith(answer) && g.Admits(answer)
  {
    var hints := Make(answer, word);
    g := Guess(word, hints);
    TrueAnswerAdmissible(word, answer);
  }

  /** With the hints an answer produced, the letters of that answer left
      over for yellows are exactly the unmatched ones. */
  lemma {:induction false} FreeIsUnmatched(word: Word, answer: Word, k: nat, c: char)
    requires k <= |word| <= |answer|
    ensures Guess(word, Feedback(answer, word)).Free(answer, k, c) == Unmatched(answer, word, k, c)
  {
    if k > 0 {
      FreeIsUnmatched(word, answer, k - 1, c);
    }
  }

  /** The true answer is admissible in hard mode after any guess: its greens
      agree, and every yellow was drawn from its own unmatched letters. */
  lemma TrueAnswerAdmissible(word: Word, answer: Word)
    requires |word| <= |answer|
    ensures Guess(word, Feedback(answer, word)).Admits(answer)
  {
    var g := Guess(word, Feedback(answer, word));
    forall i | 0 <= i < |word| && g.hints[i] == Yellow
      ensures g.Demanded(|word|, word[i]) <= g.Free(answer, |word|, word[i])
    {
      YellowCount(answer, word, |word|, word[i]);
      FreeIsUnmatched(word, answer, |word|, word[i]);
    }
  }

  /** Every candidate consistent with a clue may also be played next in
      hard mode. */
  lemma ConsistentIsAdmitted(g: Guess, answer: Word)
    requires |g.word| <= |answer| && g.IsConsistentWith(answer)
    ensures g.Admits(answer)
  {
    TrueAnswerAdmissible(g.word, answer);
  }

  /** A yellow count that is positive has a yellow position holding the
      letter. */
  lemma {:induction false} DemandedWitness(g: Guess, k: nat, c: char)
    requires g.Valid() && k <= |g.hints|
    requires g.Demanded(k, c) > 0
    ensures exists i :: 0 <= i < k && g.hints[i] == Yellow && g.word[i] == c
  {
    if !(g.hints[k - 1] == Yellow && g.word[k - 1] == c) {
      DemandedWitness(g, k - 1, c);
    }
  }

  /** The hard-mode rule letter by letter: for every letter c, the yellows
      of c here are at most the non-green positions of w holding c. */
  lemma AdmitsByLetter(g: Guess, w: Word)
    requires g.Valid() && |g.word| <= |w|
    ensures g.Admits(w) <==>
              g.GreensKept(w)
              && forall c :: g.Demanded(|g.hints|, c) <= g.Free(w, |g.hints|, c)
  {
    if g.Admits(w) {
      forall c ensures g.Demanded(|g.hints|, c) <= g.Free(w, |g.hints|, c) {
        if g.Demanded(|g.hints|, c) > 0 {
          DemandedWitness(g, |g.hints|, c);
        }
      }
    }
  }

  /** Grey hints constrain nothing: a clue without greens or yellows admits
      every word that is long enough. */
  lemma GreyAdmitsAll(g: Guess, w: Word)
    requires g.Valid() && |g.word| <= |w|
    requires forall i :: 0 <= i < |g.hints| ==> g.hints[i] == Grey
    ensures g.Admits(w)
  {
  }

  /** The expectations of the unit test `GuessTest.isConsistentWith`. */
  lemma GuessTestExamples()
    ensures Guess("mount", [Grey, Grey, Grey, Grey, Grey]).IsConsistentWith("perky")
    ensures Guess("deals", [Grey, Green, Grey, Grey, Grey]).IsConsistentWith("perky")
    ensures Guess("fiber", [Grey, Grey, Grey, Yellow, Yellow]).IsConsistentWith("perky")
    ensures Guess("weepy", [Grey, Green, Grey, Yellow, Green]).IsConsistentWith("perky")
    ensures Guess("perky", [Green, Green, Green, Green, Green]).IsConsistentWith("perky")
  {
    ExampleMount();
    ExampleDeals();
    ExampleFiber();
    ExampleWeepy();
    ExamplePerky();
  }
}
