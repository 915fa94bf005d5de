/** The per-letter feedback of one guess against an answer: computing it with
    duplicate letters handled through a bag of unmatched answer letters, and
    its ASCII and glyph renderings. */
module Hints {

  type Word = string

  /** One feedback symbol, with the ASCII letter used for parsing and the
      colored box used for display. */
  datatype Hint = Green | Yellow | Grey {

    function Letter(): char {
      match this
      case Green => '*'
      case Yellow => '-'
      case Grey => '.'
    }

    function Box(): char {
      match this
      case Green => '\U{1F7E9}'
      case Yellow => '\U{1F7E8}'
      case Grey => '\U{2B1C}'
    }
  }

  /** The hints in declaration order, as `values()` enumerates them. */
  const Values: seq<Hint> := [Green, Yellow, Grey]

  predicate IsLetter(ch: char) {
    exists h: Hint :: h.Letter() == ch
  }

  /** The ASCII rendering: one letter per hint. */
  function Letters(hints: seq<Hint>): seq<char> {
    seq(|hints|, i requires 0 <= i < |hints| => hints[i].Letter())
  }

  function AllGreen(n: nat): seq<Hint> {
    seq(n, i => Green)
  }

  // ---------------------------------------------------------------------
  // Letter counts

  /** Occurrences of c in s. */
  function Count(s: seq<char>, c: char): nat {
    if s == [] then 0 else (if s[0] == c then 1 else 0) + Count(s[1..], c)
  }

  lemma {:induction false} CountAppend(s: seq<char>, a: char, c: char)
    ensures Count(s + [a], c) == Count(s, c) + if a == c then 1 else 0
  {
    if s != [] {
      assert (s + [a])[1..] == s[1..] + [a];
      CountAppend(s[1..], a, c);
    }
  }

  lemma {:induction false} CountPositive(s: seq<char>, c: char)
    ensures Count(s, c) > 0 <==> c in s
  {
    if s != [] {
      CountPositive(s[1..], c);
      assert s == [s[0]] + s[1..];
    }
  }

  lemma {:induction false} CountPrefix(s: seq<char>, k: nat, c: char)
    requires k < |s|
    ensures Count(s[..k + 1], c) == Count(s[..k], c) + if s[k] == c then 1 else 0
  {
    assert s[..k + 1] == s[..k] + [s[k]];
    CountAppend(s[..k], s[k], c);
  }

  // ---------------------------------------------------------------------
  // Specification of the feedback

  /** How many positions before k are not green and hold the answer letter
      c: the copies of c that pass one puts into the bag there. */
  function Unmatched(answer: Word, guess: Word, k: nat, c: char): nat
    requires k <= |guess| <= |answer|
  {
    if k == 0 then 0
    else Unmatched(answer, guess, k - 1, c)
         + (if answer[k - 1] != guess[k - 1] && answer[k - 1] == c then 1 else 0)
  }

  /** Copies of c in the bag of all unmatched answer letters. */
  function Bag(answer: Word, guess: Word, c: char): nat
    requires |guess| <= |answer|
  {
    Unmatched(answer, guess, |guess|, c)
  }

  /** How many positions before k are not green and hold the guess letter
      c: the times pass two has tried to take c out of the bag. */
  function Tried(answer: Word, guess: Word, k: nat, c: char): nat
    requires k <= |guess| <= |answer|
  {
    if k == 0 then 0
    else Tried(answer, guess, k - 1, c)
         + (if answer[k - 1] != guess[k - 1] && guess[k - 1] == c then 1 else 0)
  }

  /** The hint at position i: green where the letters agree; otherwise
      yellow exactly when fewer earlier non-green positions hold the same
      guess letter than the bag has copies of it. */
  function HintAt(answer: Word, guess: Word, i: nat): Hint
    requires i < |guess| <= |answer|
  {
    if answer[i] == guess[i] then Green
    else if Tried(answer, guess, i, guess[i]) < Bag(answer, guess, guess[i]) then Yellow
    else Grey
  }

  /** The whole feedback of a guess against an answer. */
  function Feedback(answer: Word, guess: Word): seq<Hint>
    requires |guess| <= |answer|
  {
    seq(|guess|, i requires 0 <= i < |guess| => HintAt(answer, guess, i))
  }

  /** How many positions before k carry hint h and hold the guess letter c. */
  function Marked(hints: seq<Hint>, guess: Word, h: Hint, k: nat, c: char): nat
    requires k <= |hints| && k <= |guess|
  {
    if k == 0 then 0
    else Marked(hints, guess, h, k - 1, c)
         + (if hints[k - 1] == h && guess[k - 1] == c then 1 else 0)
  }

  // ---------------------------------------------------------------------
  // The bag operation of java.util.List

  /** `bag.remove(c)`: drops the first occurrence of c, reporting whether
      there was one. */
  function RemoveFirst(bag: seq<char>, c: char): (r: (seq<char>, bool))
    ensures r.1 == (c in bag)
    ensures forall d :: Count(r.0, d) == Count(bag, d) - if r.1 && d == c then 1 else 0
  {
    if bag == [] then ([], false)
    else if bag[0] == c then (bag[1..], true)
    else
      var (rest, found) := RemoveFirst(bag[1..], c);
      assert ([bag[0]] + rest)[1..] == rest;
      ([bag[0]] + rest, found)
  }

  /** Copies of a letter left in the bag after `tried` attempts to take one
      out of a bag that started with `count` copies. */
  function Left(count: nat, tried: nat): nat {
    if tried < count then count - tried else 0
  }

  // ---------------------------------------------------------------------
  // Hint.make

  method Make(answer: Word, guess: Word) returns (hints: seq<Hint>)
    requires |guess| <= |answer|
    ensures |hints| == |guess|
    ensures forall i :: 0 <= i < |guess| ==> (hints[i] == Green <==> answer[i] == guess[i])
    ensures hints == Feedback(answer, guess)
  {
    var bag;
    hints, bag := MarkGreens(answer, guess);
    hints := MarkYellows(answer, guess, hints, bag);
  }

  /** The hint pass one leaves at position i. */
  function FirstPass(answer: Word, guess: Word, i: nat): Hint
    requires i < |guess| <= |answer|
  {
    if answer[i] == guess[i] then Green else Grey
  }

  /** Pass one of `make`: green where the letters agree, grey elsewhere, and
      the answer letters of the grey positions collected into the bag. */
  method MarkGreens(answer: Word, guess: Word) returns (hints: seq<Hint>, bag: seq<char>)
    requires |guess| <= |answer|
    ensures |hints| == |guess|
    ensures forall j :: 0 <= j < |guess| ==> hints[j] == FirstPass(answer, guess, j)
    ensures forall c :: Count(bag, c) == Bag(answer, guess, c)
  {
    bag := [];
    hints := [];
    var i := 0;
    while i < |guess|
      invariant 0 <= i <= |guess|
      invariant |hints| == i
      invariant forall j :: 0 <= j < i ==> hints[j] == FirstPass(answer, guess, j)
      invariant forall c {:trigger Count(bag, c)} :: Count(bag, c) == Unmatched(answer, guess, i, c)
    {
      var a, g := answer[i], guess[i];
      if a == g {
        hints := hints + [Green];
      } else {
        hints := hints + [Grey];
        forall c ensures Count(bag + [a], c) == Count(bag, c) + if a == c then 1 else 0 {
          CountAppend(bag, a, c);
        }
        bag := bag + [a];
      }
      i := i + 1;
    }
  }

  /** Pass two of `make`: each non-green position turns yellow when its
      guess letter can still be taken out of the bag. */
  method MarkYellows(answer: Word, guess: Word, greens: seq<Hint>, bag0: seq<char>) returns (hints: seq<Hint>)
    requires |guess| <= |answer| && |greens| == |guess|
    requires forall j :: 0 <= j < |guess| ==> greens[j] == FirstPass(answer, guess, j)
    requires forall c :: Count(bag0, c) == Bag(answer, guess, c)
    ensures hints == Feedback(answer, guess)
  {
    var bag := bag0;
    hints := greens;
    var i := 0;
    while i < |guess|
      invariant 0 <= i <= |guess|
      invariant |hints| == |guess|
      invariant forall j :: 0 <= j < |guess| ==>
                  hints[j] == if j < i then HintAt(answer, guess, j) else FirstPass(answer, guess, j)
      invariant forall c {:trigger Count(bag, c)} :: Count(bag, c) == Left(Bag(answer, guess, c), Tried(answer, guess, i, c))
    {
      var g := guess[i];
      if hints[i] != Green {
        assert Count(bag, g) == Left(Bag(answer, guess, g), Tried(answer, guess, i, g));
        CountPositive(bag, g);
        var removal := RemoveFirst(bag, g);
        bag := removal.0;
        if removal.1 {
          hints := hints[i := Yellow];
        }
        assert hints[i] == HintAt(answer, guess, i);
      }
      i := i + 1;
    }
    assert hints == Feedback(answer, guess);
  }

  // ---------------------------------------------------------------------
  // Properties of the feedback

  /** Yellows of letter c go to the non-green positions holding c, as many
      of them as the bag has copies of c. */
  lemma {:induction false} YellowCount(answer: Word, guess: Word, k: nat, c: char)
    requires k <= |guess| <= |answer|
    ensures Marked(Feedback(answer, guess), guess, Yellow, k, c)
            == if Tried(answer, guess, k, c) < Bag(answer, guess, c) then Tried(answer, guess, k, c)
               else Bag(answer, guess, c)
  {
    if k > 0 {
      YellowCount(answer, guess, k - 1, c);
    }
  }

  /** A green letter and an unmatched letter together account for every
      answer letter in the compared prefix. */
  lemma {:induction false} GreensAndUnmatched(answer: Word, guess: Word, k: nat, c: char)
    requires k <= |guess| <= |answer|
    ensures Marked(Feedback(answer, guess), guess, Green, k, c) + Unmatched(answer, guess, k, c)
            == Count(answer[..k], c)
  {
    if k > 0 {
      GreensAndUnmatched(answer, guess, k - 1, c);
      CountPrefix(answer, k - 1, c);
    }
  }

  lemma {:induction false} MarkedMonotone(hints: seq<Hint>, guess: Word, h: Hint, i: nat, j: nat, c: char)
    requires i <= j <= |hints| && j <= |guess|
    ensures Marked(hints, guess, h, i, c) <= Marked(hints, guess, h, j, c)
  {
    if i < j {
      MarkedMonotone(hints, guess, h, i, j - 1, c);
    }
  }

  /** Duplicate letters: for every letter, its green and yellow marks
      together never exceed its occurrences in the answer. */
  lemma LetterBound(answer: Word, guess: Word, c: char)
    requires |guess| <= |answer|
    ensures Marked(Feedback(answer, guess), guess, Green, |guess|, c)
            + Marked(Feedback(answer, guess), guess, Yellow, |guess|, c)
            <= Count(answer[..|guess|], c)
  {
    YellowCount(answer, guess, |guess|, c);
    GreensAndUnmatched(answer, guess, |guess|, c);
  }

  /** An earlier non-green position with the same letter has been tried
      strictly fewer times. */
  lemma {:induction false} TriedGrows(answer: Word, guess: Word, i: nat, j: nat)
    requires i < j <= |guess| <= |answer|
    requires answer[i] != guess[i]
    ensures Tried(answer, guess, i, guess[i]) < Tried(answer, guess, j, guess[i])
  {
    if j > i + 1 {
      TriedGrows(answer, guess, i, j - 1);
    }
  }

  /** Yellows of a letter go to its leftmost non-green positions: a yellow
      at j means every earlier non-green position with that letter is
      yellow too. */
  lemma YellowsLeftmost(answer: Word, guess: Word, i: nat, j: nat)
    requires i < j < |guess| <= |answer|
    requires guess[i] == guess[j] && answer[i] != guess[i]
    requires Feedback(answer, guess)[j] == Yellow
    ensures Feedback(answer, guess)[i] == Yellow
  {
    TriedGrows(answer, guess, i, j);
  }

  /** Only the answer itself earns an all-green feedback. */
  lemma AllGreenIff(answer: Word, guess: Word)
    requires |guess| == |answer|
    ensures Feedback(answer, guess) == AllGreen(|guess|) <==> answer == guess
  {
    if Feedback(answer, guess) == AllGreen(|guess|) {
      forall i | 0 <= i < |guess| ensures answer[i] == guess[i] {
        assert Feedback(answer, guess)[i] == Green;
      }
    }
  }

  /** `GuessTest`: "weepy" against the answer "perky". */
  lemma ExampleWeepy()
    ensures Feedback("perky", "weepy") == [Grey, Green, Grey, Yellow, Green]
  {
    var a, g := "perky", "weepy";
    assert Unmatched(a, g, 1, 'e') == 0;
    assert Unmatched(a, g, 2, 'e') == 0;
    assert Unmatched(a, g, 3, 'e') == 0;
    assert Unmatched(a, g, 4, 'e') == 0;
    assert Unmatched(a, g, 5, 'e') == 0;
    assert Tried(a, g, 1, 'e') == 0;
    assert Tried(a, g, 2, 'e') == 0;
    assert Unmatched(a, g, 1, 'p') == 1;
    assert Unmatched(a, g, 2, 'p') == 1;
    assert Unmatched(a, g, 3, 'p') == 1;
    assert Unmatched(a, g, 4, 'p') == 1;
    assert Unmatched(a, g, 5, 'p') == 1;
    assert Tried(a, g, 1, 'p') == 0;
    assert Tried(a, g, 2, 'p') == 0;
    assert Tried(a, g, 3, 'p') == 0;
    assert Unmatched(a, g, 1, 'w') == 0;
    assert Unmatched(a, g, 2, 'w') == 0;
    assert Unmatched(a, g, 3, 'w') == 0;
    assert Unmatched(a, g, 4, 'w') == 0;
    assert Unmatched(a, g, 5, 'w') == 0;
  }

  /** `GuessTest`: "fiber" against the answer "perky". */
  lemma ExampleFiber()
    ensures Feedback("perky", "fiber") == [Grey, Grey, Grey, Yellow, Yellow]
  {
    var a, g := "perky", "fiber";
    assert Unmatched(a, g, 1, 'b') == 0;
    assert Unmatched(a, g, 2, 'b') == 0;
    assert Unmatched(a, g, 3, 'b') == 0;
    assert Unmatched(a, g, 4, 'b') == 0;
    assert Unmatched(a, g, 5, 'b') == 0;
    assert Tried(a, g, 1, 'b') == 0;
    assert Tried(a, g, 2, 'b') == 0;
    assert Unmatched(a, g, 1, 'e') == 0;
    assert Unmatched(a, g, 2, 'e') == 1;
    assert Unmatched(a, g, 3, 'e') == 1;
    assert Unmatched(a, g, 4, 'e') == 1;
    assert Unmatched(a, g, 5, 'e') == 1;
    assert Tried(a, g, 1, 'e') == 0;
    assert Tried(a, g, 2, 'e') == 0;
    assert Tried(a, g, 3, 'e') == 0;
    assert Unmatched(a, g, 1, 'f') == 0;
    assert Unmatched(a, g, 2, 'f') == 0;
    assert Unmatched(a, g, 3, 'f') == 0;
    assert Unmatched(a, g, 4, 'f') == 0;
    assert Unmatched(a, g, 5, 'f') == 0;
    assert Unmatched(a, g, 1, 'i') == 0;
    assert Unmatched(a, g, 2, 'i') == 0;
    assert Unmatched(a, g, 3, 'i') == 0;
    assert Unmatched(a, g, 4, 'i') == 0;
    assert Unmatched(a, g, 5, 'i') == 0;
    assert Tried(a, g, 1, 'i') == 0;
    assert Unmatched(a, g, 1, 'r') == 0;
    assert Unmatched(a, g, 2, 'r') == 0;
    assert Unmatched(a, g, 3, 'r') == 1;
    assert Unmatched(a, g, 4, 'r') == 1;
    assert Unmatched(a, g, 5, 'r') == 1;
    assert Tried(a, g, 1, 'r') == 0;
    assert Tried(a, g, 2, 'r') == 0;
    assert Tried(a, g, 3, 'r') == 0;
    assert Tried(a, g, 4, 'r') == 0;
  }

  /** `GuessTest`: "deals" against the answer "perky". */
  lemma ExampleDeals()
    ensures Feedback("perky", "deals") == [Grey, Green, Grey, Grey, Grey]
  {
    var a, g := "perky", "deals";
    assert Unmatched(a, g, 1, 'a') == 0;
    assert Unmatched(a, g, 2, 'a') == 0;
    assert Unmatched(a, g, 3, 'a') == 0;
    assert Unmatched(a, g, 4, 'a') == 0;
    assert Unmatched(a, g, 5, 'a') == 0;
    assert Tried(a, g, 1, 'a') == 0;
    assert Tried(a, g, 2, 'a') == 0;
    assert Unmatched(a, g, 1, 'd') == 0;
    assert Unmatched(a, g, 2, 'd') == 0;
    assert Unmatched(a, g, 3, 'd') == 0;
    assert Unmatched(a, g, 4, 'd') == 0;
    assert Unmatched(a, g, 5, 'd') == 0;
    assert Unmatched(a, g, 1, 'l') == 0;
    assert Unmatched(a, g, 2, 'l') == 0;
    assert Unmatched(a, g, 3, 'l') == 0;
    assert Unmatched(a, g, 4, 'l') == 0;
    assert Unmatched(a, g, 5, 'l') == 0;
    assert Tried(a, g, 1, 'l') == 0;
    assert Tried(a, g, 2, 'l') == 0;
    assert Tried(a, g, 3, 'l') == 0;
    assert Unmatched(a, g, 1, 's') == 0;
    assert Unmatched(a, g, 2, 's') == 0;
    assert Unmatched(a, g, 3, 's') == 0;
    assert Unmatched(a, g, 4, 's') == 0;
    assert Unmatched(a, g, 5, 's') == 0;
    assert Tried(a, g, 1, 's') == 0;
    assert Tried(a, g, 2, 's') == 0;
    assert Tried(a, g, 3, 's') == 0;
    assert Tried(a, g, 4, 's') == 0;
  }

  /** `GuessTest`: "mount" against the answer "perky". */
  lemma ExampleMount()
    ensures Feedback("perky", "mount") == [Grey, Grey, Grey, Grey, Grey]
  {
    var a, g := "perky", "mount";
    assert Unmatched(a, g, 1, 'm') == 0;
    assert Unmatched(a, g, 2, 'm') == 0;
    assert Unmatched(a, g, 3, 'm') == 0;
    assert Unmatched(a, g, 4, 'm') == 0;
    assert Unmatched(a, g, 5, 'm') == 0;
    assert Unmatched(a, g, 1, 'n') == 0;
    assert Unmatched(a, g, 2, 'n') == 0;
    assert Unmatched(a, g, 3, 'n') == 0;
    assert Unmatched(a, g, 4, 'n') == 0;
    assert Unmatched(a, g, 5, 'n') == 0;
    assert Tried(a, g, 1, 'n') == 0;
    assert Tried(a, g, 2, 'n') == 0;
    assert Tried(a, g, 3, 'n') == 0;
    assert Unmatched(a, g, 1, 'o') == 0;
    assert Unmatched(a, g, 2, 'o') == 0;
    assert Unmatched(a, g, 3, 'o') == 0;
    assert Unmatched(a, g, 4, 'o') == 0;
    assert Unmatched(a, g, 5, 'o') == 0;
    assert Tried(a, g, 1, 'o') == 0;
    assert Unmatched(a, g, 1, 't') == 0;
    assert Unmatched(a, g, 2, 't') == 0;
    assert Unmatched(a, g, 3, 't') == 0;
    assert Unmatched(a, g, 4, 't') == 0;
    assert Unmatched(a, g, 5, 't') == 0;
    assert Tried(a, g, 1, 't') == 0;
    assert Tried(a, g, 2, 't') == 0;
    assert Tried(a, g, 3, 't') == 0;
    assert Tried(a, g, 4, 't') == 0;
    assert Unmatched(a, g, 1, 'u') == 0;
    assert Unmatched(a, g, 2, 'u') == 0;
    assert Unmatched(a, g, 3, 'u') == 0;
    assert Unmatched(a, g, 4, 'u') == 0;
    assert Unmatched(a, g, 5, 'u') == 0;
    assert Tried(a, g, 1, 'u') == 0;
    assert Tried(a, g, 2, 'u') == 0;
  }

  /** `GuessTest`: the answer itself. */
  lemma ExamplePerky()
    ensures Feedback("perky", "perky") == AllGreen(5)
  {
  }

  // ---------------------------------------------------------------------
  // Hint.parse and Hint.print

  datatype Parsed = Parsed(hints: seq<Hint>) | ParseError(offset: nat)

  method Parse(s: string) returns (r: Parsed)
    ensures r.Parsed? <==> forall i :: 0 <= i < |s| ==> IsLetter(s[i])
    ensures r.Parsed? ==> Letters(r.hints) == s
    ensures r.ParseError? ==>
              r.offset < |s| && !IsLetter(s[r.offset])
              && forall j :: 0 <= j < r.offset ==> IsLetter(s[j])
    ensures forall hints :: Letters(hints) == s ==> r == Parsed(hints)
  {
    var results: seq<Hint> := [];
    var i := 0;
    while i < |s|
      invariant 0 <= i <= |s|
      invariant |results| == i
      invariant forall j :: 0 <= j < i ==> results[j].Letter() == s[j]
    {
      var ch := s[i];
      var k := 0;
      while k < |Values| && Values[k].Letter() != ch
        invariant 0 <= k <= |Values|
        invariant forall m :: 0 <= m < k ==> Values[m].Letter() != ch
      {
        k := k + 1;
      }
      if k == |Values| {
        NoLetter(ch);
        return ParseError(i);
      }
      results := results + [Values[k]];
      i := i + 1;
    }
    r := Parsed(results);
    assert Letters(results) == s;
    forall hints | Letters(hints) == s
      ensures hints == results
    {
      LettersInjective(hints, results);
    }
  }

  lemma NoLetter(ch: char)
    requires forall m :: 0 <= m < |Values| ==> Values[m].Letter() != ch
    ensures !IsLetter(ch)
  {
    forall h: Hint ensures h.Letter() != ch {
      assert h == Values[match h case Green => 0 case Yellow => 1 case Grey => 2];
    }
  }

  lemma LettersInjective(a: seq<Hint>, b: seq<Hint>)
    requires Letters(a) == Letters(b)
    ensures a == b
  {
    assert |a| == |Letters(a)|;
    forall i | 0 <= i < |a| ensures a[i] == b[i] {
      assert Letters(a)[i] == Letters(b)[i];
    }
  }

  /** `print`: one box glyph per hint. No glyph is a letter the parser
      accepts, so parsing a non-empty printed clue fails at offset 0. */
  method Print(hints: seq<Hint>) returns (s: string)
    ensures |s| == |hints|
    ensures forall i :: 0 <= i < |s| ==> s[i] == hints[i].Box()
    ensures forall i :: 0 <= i < |s| ==> !IsLetter(s[i])
  {
    s := [];
    for i := 0 to |hints|
      invariant |s| == i
      invariant forall j :: 0 <= j < i ==> s[j] == hints[j].Box()
    {
      s := s + [hints[i].Box()];
    }
    forall i | 0 <= i < |s| ensures !IsLetter(s[i]) {
      NoLetter(s[i]);
    }
  }
}
