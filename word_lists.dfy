/** An immutable set of words. Every operation builds a new list and leaves
    its receiver as it was, which datatype values give for free. */
module WordLists {

  import opened Hints

  datatype WordList = WordList(words: set<Word>) {

    predicate Contains(w: Word) {
      w in words
    }

    function Size(): nat {
      |words|
    }

    /** `select`: the words that satisfy p, and no others. */
    function Select(p: Word --> bool): (r: WordList)
      requires forall w :: w in words ==> p.requires(w)
      ensures r.words <= words
      ensures forall w :: w in words ==> (r.Contains(w) <==> p(w))
    {
      WordList(set w | w in words && p(w))
    }

    /** `join`: the words of either list. */
    function Join(that: WordList): (r: WordList)
      ensures forall w :: r.Contains(w) <==> Contains(w) || that.Contains(w)
    {
      WordList(words + that.words)
    }

    /** `sample`: words of the list appended one at a time until `upTo` of
        them are taken; with `upTo` zero the early exit never fires and every
        word is taken. */
    method Sample(upTo: nat) returns (sample: seq<Word>)
      ensures |sample| == if upTo == 0 || Size() < upTo then Size() else upTo
      ensures forall i :: 0 <= i < |sample| ==> Contains(sample[i])
      ensures forall i, j :: 0 <= i < j < |sample| ==> sample[i] != sample[j]
      ensures |sample| == Size() ==> forall w :: Contains(w) ==> w in sample
    {
      sample := [];
      var rest := words;
      while rest != {}
        invariant rest <= words
        invariant forall i :: 0 <= i < |sample| ==> sample[i] in words && sample[i] !in rest
        invariant forall i, j :: 0 <= i < j < |sample| ==> sample[i] != sample[j]
        invariant forall w :: w in words ==> w in rest || w in sample
        invariant |sample| + |rest| == |words|
        invariant upTo == 0 || |sample| < upTo
        decreases rest
      {
        var w :| w in rest;
        sample := sample + [w];
        rest := rest - {w};
        if |sample| == upTo {
          break;
        }
      }
    }
  }

  /** Selecting twice by the same predicate selects nothing more. */
  lemma SelectIdempotent(l: WordList, p: Word --> bool)
    requires forall w :: w in l.words ==> p.requires(w)
    ensures l.Select(p).Select(p) == l.Select(p)
  {
  }

  /** Selecting from a smaller list gives a smaller result. */
  lemma SelectMonotone(l: WordList, k: WordList, p: Word --> bool)
    requires l.words <= k.words
    requires forall w :: w in k.words ==> p.requires(w)
    ensures l.Select(p).words <= k.Select(p).words
  {
  }

  /** Sizes: a selection is no larger than its source, and a join is at
      least as large as either part and at most their sum. */
  lemma Sizes(l: WordList, k: WordList, p: Word --> bool)
    requires forall w :: w in l.words ==> p.requires(w)
    ensures l.Select(p).Size() <= l.Size()
    ensures l.Size() <= l.Join(k).Size() && k.Size() <= l.Join(k).Size()
    ensures l.Join(k).Size() <= l.Size() + k.Size()
  {
    var s := l.Select(p).words;
    SubsetSize(s, l.words);
    SubsetSize(l.words, l.words + k.words);
    SubsetSize(k.words, l.words + k.words);
    assert |l.words + k.words| + |l.words * k.words| == |l.words| + |k.words|;
  }

  lemma SubsetSize<T>(a: set<T>, b: set<T>)
    requires a <= b
    ensures |a| <= |b|
  {
    assert a + (b - a) == b;
    assert a * (b - a) == {};
  }
}
