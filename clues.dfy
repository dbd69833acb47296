/**
 * The clue layer of wordle_solver/clue.py: a clue is a guess together with
 * the pattern it earned, used as a constraint on the unknown answer; a clue
 * set is the conjunction (or the disjunction) of its clues, and filters a
 * word stream by them.
 */
module Clues {
  import opened Seqs
  import opened Colors

  /** A guess and the pattern it earned (`Clue`, a NamedTuple). */
  datatype Clue = Clue(guess: string, colors: Pattern)
  {
    /**
     * `Clue.matches`: `word` could be the answer, i.e. the guess earns the
     * same pattern against it. A word shorter than the guess never matches.
     */
    predicate Matches(word: string)
    {
      |guess| <= |word| && Feedback(guess, word) == colors
    }
  }

  /** `Clue.from_guess`: the clue `guessWord` earns against `trueWord`. */
  function FromGuess(guessWord: string, trueWord: string): (c: Clue)
    requires |guessWord| <= |trueWord|
    ensures c.guess == guessWord && |c.colors| == |guessWord|
    ensures c.Matches(trueWord)
  {
    Clue(guessWord, Feedback(guessWord, trueWord))
  }

  /** A clue matches a word exactly when the method `FromWords` reproduces its pattern. */
  method MatchesWord(clue: Clue, word: string) returns (b: bool)
    ensures b == clue.Matches(word)
  {
    if |clue.guess| > |word| {
      return false;
    }
    var colors := FromWords(clue.guess, word);
    b := colors == clue.colors;
  }

  /** A clue tells apart the words that differ from its guess at a GREEN position. */
  lemma MatchesGreen(c: Clue, w: string, i: nat)
    requires c.Matches(w) && i < |c.guess|
    ensures c.colors[i] == Green <==> c.guess[i] == w[i]
  {
    FeedbackGreen(c.guess, w, i);
  }

  /** A clue that is all GREEN matches, among words of its length, only its own guess. */
  lemma AllGreenMatchesOnlyGuess(c: Clue, w: string)
    requires forall i :: 0 <= i < |c.colors| ==> c.colors[i] == Green
    requires c.Matches(w) && |w| == |c.guess|
    ensures w == c.guess
  {
    forall i | 0 <= i < |w| ensures w[i] == c.guess[i] {
      MatchesGreen(c, w, i);
    }
  }

  /** Guessing the answer itself earns an all-GREEN clue. */
  lemma FromGuessSelf(w: string)
    ensures forall i :: 0 <= i < |w| ==> FromGuess(w, w).colors[i] == Green
  {
    FeedbackSelf(w);
  }

  /** `ClueSet`: a frozen set of clues. */
  datatype ClueSet = ClueSet(clues: set<Clue>)
  {
    /** `ClueSet.__or__`. */
    function Union(other: set<Clue>): (r: ClueSet)
      ensures forall c :: c in r.clues <==> c in clues || c in other
    {
      ClueSet(clues + other)
    }

    /** `all_match`: every clue matches `word`. */
    predicate AllMatch(word: string)
    {
      forall c :: c in clues ==> c.Matches(word)
    }

    /** `any_match`: some clue matches `word`. */
    predicate AnyMatch(word: string)
    {
      exists c :: c in clues && c.Matches(word)
    }

    /** `iter_matches`: the words that every clue matches, in input order. */
    function IterMatches(words: seq<string>): (r: seq<string>)
      ensures forall w :: w in r <==> w in words && AllMatch(w)
      ensures forall w :: multiset(r)[w] == if AllMatch(w) then multiset(words)[w] else 0
      ensures IsSubsequence(r, words)
    {
      Filter(words, w => AllMatch(w))
    }

    /** `iter_fuzzy_matches`: the words that some clue matches, in input order. */
    function IterFuzzyMatches(words: seq<string>): (r: seq<string>)
      ensures forall w :: w in r <==> w in words && AnyMatch(w)
      ensures forall w :: multiset(r)[w] == if AnyMatch(w) then multiset(words)[w] else 0
      ensures IsSubsequence(r, words)
    {
      Filter(words, w => AnyMatch(w))
    }
  }

  /** The empty clue set rules nothing out and supports nothing. */
  lemma EmptyClueSet(w: string)
    ensures ClueSet({}).AllMatch(w)
    ensures !ClueSet({}).AnyMatch(w)
  {
  }

  /** On a non-empty clue set, matching every clue implies matching some clue. */
  lemma AllMatchImpliesAnyMatch(cs: ClueSet, w: string)
    requires cs.clues != {} && cs.AllMatch(w)
    ensures cs.AnyMatch(w)
  {
    var c :| c in cs.clues;
    assert c.Matches(w);
  }

  /** Adding clues conjoins their constraints. */
  lemma UnionAllMatch(cs: ClueSet, other: set<Clue>, w: string)
    ensures cs.Union(other).AllMatch(w) <==> cs.AllMatch(w) && ClueSet(other).AllMatch(w)
  {
  }

  /** Adding a clue that is already present changes nothing. */
  lemma UnionPresent(cs: ClueSet, c: Clue)
    requires c in cs.clues
    ensures cs.Union({c}) == cs
    ensures forall w :: cs.Union({c}).AllMatch(w) <==> cs.AllMatch(w)
  {
    assert cs.clues + {c} == cs.clues;
  }

  /** Adding clues can only shrink the matches, keeping their order. */
  lemma UnionNarrowsMatches(cs: ClueSet, other: set<Clue>, words: seq<string>)
    ensures IsSubsequence(cs.Union(other).IterMatches(words), cs.IterMatches(words))
  {
    var p := (w: string) => cs.AllMatch(w);
    var q := (w: string) => cs.Union(other).AllMatch(w);
    FilterNarrows(words, p, q);
  }
}
