/**
 * The solver of wordle_solver/solver.py: an immutable state made of the clues
 * seen so far, the corpus, the hard-mode flag and the frequency ratio of the
 * weighted-head cut-off; the candidate answers and guesses it derives; and the
 * simulated game that plays its best guess against a known answer.
 *
 * The entropy score of a guess is abstract: a parameter `entropyScore` that
 * gives, for a solver state and a guess, the value `get_score` computes once
 * its empty-matches guard has passed.
 */
module Solvers {
  import opened Seqs
  import opened Colors
  import opened Clues
  import Corpus

  /** `Solver`, a NamedTuple. */
  datatype Solver = Solver(clues: ClueSet, corpus: Corpus.Corpus, hardMode: bool, minFreqRatio: real)
  {
    /** `with_clue`: the same solver with one more clue. */
    function WithClue(clue: Clue): (r: Solver)
      ensures r.clues.clues == clues.clues + {clue}
      ensures r.corpus == corpus && r.hardMode == hardMode && r.minFreqRatio == minFreqRatio
    {
      Solver(clues.Union({clue}), corpus, hardMode, minFreqRatio)
    }

    /**
     * `matches`: the weighted head of the corpus words every clue matches. Each
     * is a corpus word every clue matches, they keep corpus order, and they
     * start the stream of all such words.
     */
    function Matches(): (r: seq<string>)
      requires corpus.Valid()
      ensures forall w :: w in r ==> clues.AllMatch(w) && corpus.Contains(w)
      ensures IsSubsequence(r, corpus.Words())
      ensures NoDups(r)
    {
      var words := corpus.Words();
      var matching := clues.IterMatches(words);
      corpus.ValidWords();
      corpus.SubsequencePositive(matching, words);
      var r := corpus.WeightedHead(minFreqRatio, matching);
      HeadOfSubsequence(r, matching, words);
      r
    }

    /**
     * `iter_fuzzy_matches`: the weighted head of the corpus words some clue
     * matches.
     */
    function FuzzyMatches(): (r: seq<string>)
      requires corpus.Valid()
      ensures forall w :: w in r ==> clues.AnyMatch(w) && corpus.Contains(w)
      ensures IsSubsequence(r, corpus.Words())
    {
      var words := corpus.Words();
      var matching := clues.IterFuzzyMatches(words);
      corpus.ValidWords();
      corpus.SubsequencePositive(matching, words);
      var r := corpus.WeightedHead(minFreqRatio, matching);
      HeadOfSubsequence(r, matching, words);
      r
    }

    /** Whether `choices` adds the fuzzy matches: soft mode with more than one clue. */
    predicate AddsFuzzy()
    {
      !hardMode && |clues.clues| > 1
    }

    /**
     * `choices`: the matches, followed in soft mode with more than one clue by
     * the fuzzy matches, each word once (`OrderedDict.fromkeys`). Its shape is
     * stated by `ChoicesShape`.
     */
    function Choices(): (r: seq<string>)
      requires corpus.Valid()
      ensures forall w :: w in r ==> corpus.Contains(w)
    {
      if AddsFuzzy() then Dedup(Matches() + FuzzyMatches()) else Matches()
    }

    /** `get_score`: 0 while nothing matches, otherwise the entropy score. */
    function GetScore(entropyScore: (Solver, string) -> real, guess: string): (r: real)
      requires corpus.Valid()
      ensures Matches() == [] ==> r == 0.0
      ensures Matches() != [] ==> r == entropyScore(this, guess)
    {
      if Matches() == [] then 0.0 else entropyScore(this, guess)
    }

    /** The score of every word as a key function, with `GetScore`'s guard. */
    function ScoreKey(entropyScore: (Solver, string) -> real): string -> real
    {
      w => if corpus.Valid() then GetScore(entropyScore, w) else 0.0
    }

    /** The choices with a positive score, in choices order (the `scores` dict order). */
    function Scored(entropyScore: (Solver, string) -> real): (r: seq<string>)
      requires corpus.Valid()
      ensures forall w :: w in r ==> corpus.Contains(w)
    {
      var key := ScoreKey(entropyScore);
      Filter(Dedup(Choices()), w => key(w) > 0.0)
    }

    /**
     * `best_guesses`: the choices with a positive score, best score first, by
     * a stable sort (`BestGuessesMembers`, `BestGuessesSorted`,
     * `BestGuessesStable`).
     */
    function BestGuesses(entropyScore: (Solver, string) -> real): (r: seq<string>)
      requires corpus.Valid()
      ensures forall w :: w in r ==> corpus.Contains(w)
    {
      var scored := Scored(entropyScore);
      var r := SortDesc(scored, ScoreKey(entropyScore));
      assert forall w :: w in r ==> w in multiset(scored);
      r
    }
  }

  /**
   * The matches are the weighted head of the matching corpus words: they
   * start that stream and run up to its first word that fails the cut-off.
   */
  lemma MatchesHead(s: Solver)
    requires s.corpus.Valid()
    ensures s.corpus.AllPositive(s.clues.IterMatches(s.corpus.Words()))
    ensures var m, all := s.Matches(), s.clues.IterMatches(s.corpus.Words());
            |m| <= |all| && m == all[..|m|] &&
            (forall k :: 0 <= k < |m| ==> s.corpus.Passes(s.minFreqRatio, all, k)) &&
            (|m| < |all| ==> !s.corpus.Passes(s.minFreqRatio, all, |m|))
  {
    var words := s.corpus.Words();
    s.corpus.ValidWords();
    s.corpus.SubsequencePositive(s.clues.IterMatches(words), words);
  }

  /**
   * The fuzzy matches are the weighted head of the corpus words some clue
   * matches: they start that stream, every one of them passes the cut-off,
   * and the first word of the stream left out fails it.
   */
  lemma FuzzyMatchesHead(s: Solver)
    requires s.corpus.Valid()
    ensures s.corpus.AllPositive(s.clues.IterFuzzyMatches(s.corpus.Words()))
    ensures var m, all := s.FuzzyMatches(), s.clues.IterFuzzyMatches(s.corpus.Words());
            |m| <= |all| && m == all[..|m|] &&
            (forall k :: 0 <= k < |m| ==> s.corpus.Passes(s.minFreqRatio, all, k)) &&
            (|m| < |all| ==> !s.corpus.Passes(s.minFreqRatio, all, |m|))
  {
    var words := s.corpus.Words();
    s.corpus.ValidWords();
    s.corpus.SubsequencePositive(s.clues.IterFuzzyMatches(words), words);
  }

  /**
   * The choices are the matches, followed in soft mode with more than one
   * clue by the fuzzy matches not already among them; each word occurs once.
   */
  lemma ChoicesShape(s: Solver)
    requires s.corpus.Valid()
    ensures !s.AddsFuzzy() ==> s.Choices() == s.Matches()
    ensures s.AddsFuzzy() ==> s.Choices() == s.Matches() + DedupAfter(s.FuzzyMatches(), Elements(s.Matches()))
    ensures forall w :: w in s.Choices() <==> w in s.Matches() || (s.AddsFuzzy() && w in s.FuzzyMatches())
    ensures NoDups(s.Choices())
  {
    if s.AddsFuzzy() {
      DedupAfterAppend(s.Matches(), s.FuzzyMatches(), {});
      assert {} + Elements(s.Matches()) == Elements(s.Matches());
    }
  }

  /** The best guesses are exactly the choices with a positive score. */
  lemma BestGuessesMembers(s: Solver, entropyScore: (Solver, string) -> real)
    requires s.corpus.Valid()
    ensures forall w :: w in s.BestGuesses(entropyScore) <==> w in s.Choices() && s.GetScore(entropyScore, w) > 0.0
  {
    var key := s.ScoreKey(entropyScore);
    var scored := s.Scored(entropyScore);
    assert forall w :: w in scored <==> w in s.Choices() && key(w) > 0.0;
    assert forall w :: w in s.BestGuesses(entropyScore) <==> w in multiset(scored);
  }

  /** The best guesses occur once each, in non-increasing order of score. */
  lemma BestGuessesSorted(s: Solver, entropyScore: (Solver, string) -> real)
    requires s.corpus.Valid()
    ensures NoDups(s.BestGuesses(entropyScore))
    ensures SortedDesc(s.BestGuesses(entropyScore), s.ScoreKey(entropyScore))
  {
    var d := Dedup(s.Choices());
    var scored := s.Scored(entropyScore);
    NoDupsByMultiset(scored, d);
    NoDupsByMultiset(s.BestGuesses(entropyScore), scored);
  }

  /** Equal scores keep their choices order in `best_guesses`. */
  lemma BestGuessesStable(s: Solver, entropyScore: (Solver, string) -> real, v: real)
    requires s.corpus.Valid()
    ensures Filter(s.BestGuesses(entropyScore), KeyIs(s.ScoreKey(entropyScore), v))
         == Filter(s.Scored(entropyScore), KeyIs(s.ScoreKey(entropyScore), v))
  {
    SortDescStable(s.Scored(entropyScore), s.ScoreKey(entropyScore), v);
  }

  /** With choices free of duplicates, `Scored` keeps them in their own order. */
  lemma ScoredOrder(s: Solver, entropyScore: (Solver, string) -> real)
    requires s.corpus.Valid()
    ensures IsSubsequence(s.Scored(entropyScore), s.Choices())
  {
    ChoicesShape(s);
    DedupOfNoDups(s.Choices());
  }

  /** Some guess is on offer whenever something matches and every match scores above 0. */
  lemma BestGuessesNonEmpty(s: Solver, entropyScore: (Solver, string) -> real)
    requires s.corpus.Valid() && s.Matches() != []
    requires forall w :: w in s.Matches() ==> entropyScore(s, w) > 0.0
    ensures s.BestGuesses(entropyScore) != []
  {
    var w := s.Matches()[0];
    ChoicesShape(s);
    BestGuessesMembers(s, entropyScore);
    assert w in s.Choices() && s.GetScore(entropyScore, w) > 0.0;
    assert w in s.BestGuesses(entropyScore);
  }

  /** Applying a clue twice is applying it once. */
  lemma WithClueTwice(s: Solver, c: Clue)
    ensures s.WithClue(c).WithClue(c) == s.WithClue(c)
  {
    UnionPresent(s.WithClue(c).clues, c);
  }

  /** The solver after the clues `cs`, applied in order. */
  function Advance(s: Solver, cs: seq<Clue>): (r: Solver)
    ensures r.corpus == s.corpus && r.hardMode == s.hardMode && r.minFreqRatio == s.minFreqRatio
    decreases |cs|
  {
    if cs == [] then s else Advance(s.WithClue(cs[0]), cs[1..])
  }

  /** Advancing by a sequence of clues adds exactly its clues to the clue set. */
  lemma {:induction false} AdvanceClues(s: Solver, cs: seq<Clue>)
    ensures Advance(s, cs).clues.clues == s.clues.clues + Elements(cs)
    decreases |cs|
  {
    if cs != [] {
      AdvanceClues(s.WithClue(cs[0]), cs[1..]);
      assert Elements(cs) == {cs[0]} + Elements(cs[1..]) by {
        assert cs == [cs[0]] + cs[1..];
      }
    }
  }

  /** The clues a simulated game yields, and whether it raised IndexError on `best_guesses[0]`. */
  datatype Run = Run(clues: seq<Clue>, raised: bool)

  /**
   * What one round of `path_to` does with a solver: stop because nothing
   * matches, raise because no guess is on offer, or play a clue.
   */
  datatype Move = Stop | Raise | Play(clue: Clue)

  function Max0(n: int): nat
  {
    if n < 0 then 0 else n
  }

  /**
   * The loop of `path_to` for any choice of round: at most `maxGuesses`
   * rounds, each asking `move` what the current solver does; a played clue is
   * yielded, ends the game if its guess is the answer, and is otherwise added
   * to the solver. No clue follows the one that guessed the answer.
   */
  function Game(s: Solver, move: Solver -> Move, trueWord: string, maxGuesses: int): (r: Run)
    ensures |r.clues| <= Max0(maxGuesses)
    ensures forall k :: 0 <= k < |r.clues| - 1 ==> r.clues[k].guess != trueWord
    decreases maxGuesses
  {
    if maxGuesses <= 0 then Run([], false)
    else match move(s)
      case Stop => Run([], false)
      case Raise => Run([], true)
      case Play(c) =>
        if c.guess == trueWord then Run([c], false)
        else
          var rest := Game(s.WithClue(c), move, trueWord, maxGuesses - 1);
          var r := Run([c] + rest.clues, rest.raised);
          assert forall k :: 1 <= k < |r.clues| ==> r.clues[k] == rest.clues[k - 1];
          r
  }

  /**
   * Round `k` of a game is played by the solver that has seen the first `k`
   * clues, and the clue is the one that solver's move plays.
   */
  lemma {:induction false} GameRounds(s: Solver, move: Solver -> Move, trueWord: string, maxGuesses: int, k: nat)
    requires k < |Game(s, move, trueWord, maxGuesses).clues|
    ensures var cs := Game(s, move, trueWord, maxGuesses).clues;
            move(Advance(s, cs[..k])) == Play(cs[k])
    decreases maxGuesses
  {
    var cs := Game(s, move, trueWord, maxGuesses).clues;
    if k > 0 {
      var c := move(s).clue;
      var s' := s.WithClue(c);
      GameRounds(s', move, trueWord, maxGuesses - 1, k - 1);
      var cs' := Game(s', move, trueWord, maxGuesses - 1).clues;
      assert cs == [c] + cs';
      assert cs[..k] == [c] + cs'[..k - 1];
      assert cs[..k][1..] == cs'[..k - 1];
    }
  }

  /** A game raises only before `maxGuesses` rounds, on a solver whose move raises. */
  lemma {:induction false} GameRaises(s: Solver, move: Solver -> Move, trueWord: string, maxGuesses: int)
    requires Game(s, move, trueWord, maxGuesses).raised
    ensures var r := Game(s, move, trueWord, maxGuesses);
            |r.clues| < maxGuesses && move(Advance(s, r.clues)) == Raise
    decreases maxGuesses
  {
    var r := Game(s, move, trueWord, maxGuesses);
    if move(s).Play? {
      var c := move(s).clue;
      var s' := s.WithClue(c);
      GameRaises(s', move, trueWord, maxGuesses - 1);
      var rest := Game(s', move, trueWord, maxGuesses - 1);
      assert r.clues == [c] + rest.clues;
      assert r.clues[1..] == rest.clues;
    }
  }

  /**
   * A game that neither raised nor used up its `maxGuesses` rounds ended on a
   * solver whose move stops, or right after the clue that guessed the answer.
   */
  lemma {:induction false} GameStops(s: Solver, move: Solver -> Move, trueWord: string, maxGuesses: int)
    requires var r := Game(s, move, trueWord, maxGuesses);
             !r.raised && |r.clues| < maxGuesses
    requires var r := Game(s, move, trueWord, maxGuesses);
             r.clues == [] || r.clues[|r.clues| - 1].guess != trueWord
    ensures move(Advance(s, Game(s, move, trueWord, maxGuesses).clues)) == Stop
    decreases maxGuesses
  {
    var r := Game(s, move, trueWord, maxGuesses);
    if move(s).Play? {
      var c := move(s).clue;
      var s' := s.WithClue(c);
      var rest := Game(s', move, trueWord, maxGuesses - 1);
      assert r.clues == [c] + rest.clues;
      assert r.clues[1..] == rest.clues;
      if rest.clues != [] {
        assert r.clues[|r.clues| - 1] == rest.clues[|rest.clues| - 1];
      }
      GameStops(s', move, trueWord, maxGuesses - 1);
    }
  }

  /** One round of a game, by what the move does. */
  lemma GameUnfold(s: Solver, move: Solver -> Move, trueWord: string, maxGuesses: int)
    requires maxGuesses > 0
    ensures move(s) == Stop ==> Game(s, move, trueWord, maxGuesses) == Run([], false)
    ensures move(s) == Raise ==> Game(s, move, trueWord, maxGuesses) == Run([], true)
    ensures move(s).Play? && move(s).clue.guess == trueWord ==>
              Game(s, move, trueWord, maxGuesses) == Run([move(s).clue], false)
    ensures move(s).Play? && move(s).clue.guess != trueWord ==>
              var rest := Game(s.WithClue(move(s).clue), move, trueWord, maxGuesses - 1);
              Game(s, move, trueWord, maxGuesses) == Run([move(s).clue] + rest.clues, rest.raised)
  {
  }

  /** A game whose move never raises never raises. */
  lemma {:induction false} GameNeverRaises(s: Solver, move: Solver -> Move, trueWord: string, maxGuesses: int)
    requires forall st :: move(st) != Raise
    ensures !Game(s, move, trueWord, maxGuesses).raised
    decreases maxGuesses
  {
    if maxGuesses > 0 && move(s).Play? && move(s).clue.guess != trueWord {
      GameNeverRaises(s.WithClue(move(s).clue), move, trueWord, maxGuesses - 1);
    }
  }

  /**
   * One round of `path_to`: stop when nothing matches, raise when no guess is
   * on offer, otherwise play the clue the best guess earns against the answer.
   */
  function Round(s: Solver, entropyScore: (Solver, string) -> real, trueWord: string): (m: Move)
    requires s.corpus.Valid() && s.corpus.wordLen <= |trueWord|
    ensures m == Stop <==> s.Matches() == []
    ensures m == Raise <==> s.Matches() != [] && s.BestGuesses(entropyScore) == []
    ensures m.Play? ==> s.BestGuesses(entropyScore) != [] && m.clue.guess == s.BestGuesses(entropyScore)[0]
    ensures m.Play? ==> m.clue.Matches(trueWord) && |m.clue.guess| == s.corpus.wordLen
  {
    if s.Matches() == [] then Stop
    else
      var best := s.BestGuesses(entropyScore);
      if best == [] then Raise
      else
        assert best[0] in best;
        Play(FromGuess(best[0], trueWord))
  }

  /** `Round` for every solver it is defined on; any other solver stops. */
  function Rounds(entropyScore: (Solver, string) -> real, trueWord: string): Solver -> Move
  {
    (st: Solver) => if st.corpus.Valid() && st.corpus.wordLen <= |trueWord|
          then Round(st, entropyScore, trueWord) else Stop
  }

  /** `path_to`: the game the solver's own rounds play against `trueWord`. */
  function Path(s: Solver, entropyScore: (Solver, string) -> real, trueWord: string, maxGuesses: int): (r: Run)
    requires s.corpus.Valid() && s.corpus.wordLen <= |trueWord|
    ensures |r.clues| <= Max0(maxGuesses)
    ensures forall k :: 0 <= k < |r.clues| - 1 ==> r.clues[k].guess != trueWord
  {
    Game(s, Rounds(entropyScore, trueWord), trueWord, maxGuesses)
  }

  /**
   * Every clue of a game is the best guess of the solver that has seen the
   * clues before it, with the pattern that guess earns against the answer;
   * so the answer matches every clue.
   */
  lemma PathRounds(s: Solver, entropyScore: (Solver, string) -> real, trueWord: string, maxGuesses: int, k: nat)
    requires s.corpus.Valid() && s.corpus.wordLen <= |trueWord|
    requires k < |Path(s, entropyScore, trueWord, maxGuesses).clues|
    ensures var cs := Path(s, entropyScore, trueWord, maxGuesses).clues;
            var st := Advance(s, cs[..k]);
            st.Matches() != [] && st.BestGuesses(entropyScore) != [] &&
            cs[k].guess == st.BestGuesses(entropyScore)[0] && cs[k].Matches(trueWord)
  {
    var move := Rounds(entropyScore, trueWord);
    assert Path(s, entropyScore, trueWord, maxGuesses) == Game(s, move, trueWord, maxGuesses);
    GameRounds(s, move, trueWord, maxGuesses, k);
  }

  /**
   * `path_to` raises only before `maxGuesses` rounds, on a solver for which
   * something still matches but no guess is on offer.
   */
  lemma PathRaises(s: Solver, entropyScore: (Solver, string) -> real, trueWord: string, maxGuesses: int)
    requires s.corpus.Valid() && s.corpus.wordLen <= |trueWord|
    ensures var r := Path(s, entropyScore, trueWord, maxGuesses);
            var last := Advance(s, r.clues);
            r.raised ==> |r.clues| < maxGuesses && last.Matches() != [] && last.BestGuesses(entropyScore) == []
  {
    var move := Rounds(entropyScore, trueWord);
    assert Path(s, entropyScore, trueWord, maxGuesses) == Game(s, move, trueWord, maxGuesses);
    var r := Path(s, entropyScore, trueWord, maxGuesses);
    if r.raised {
      GameRaises(s, move, trueWord, maxGuesses);
      var last := Advance(s, r.clues);
      assert move(last) == Round(last, entropyScore, trueWord);
    }
  }

  /**
   * `path_to` stops before `maxGuesses` rounds without raising only when
   * nothing matches any more or the last guess was the answer.
   */
  lemma PathStops(s: Solver, entropyScore: (Solver, string) -> real, trueWord: string, maxGuesses: int)
    requires s.corpus.Valid() && s.corpus.wordLen <= |trueWord|
    requires var r := Path(s, entropyScore, trueWord, maxGuesses);
             !r.raised && |r.clues| < maxGuesses
    requires var r := Path(s, entropyScore, trueWord, maxGuesses);
             r.clues == [] || r.clues[|r.clues| - 1].guess != trueWord
    ensures Advance(s, Path(s, entropyScore, trueWord, maxGuesses).clues).Matches() == []
  {
    var move := Rounds(entropyScore, trueWord);
    assert Path(s, entropyScore, trueWord, maxGuesses) == Game(s, move, trueWord, maxGuesses);
    GameStops(s, move, trueWord, maxGuesses);
    var last := Advance(s, Path(s, entropyScore, trueWord, maxGuesses).clues);
    assert move(last) == Round(last, entropyScore, trueWord);
  }

  /**
   * With a score that is positive on every match (as the entropy score is,
   * since a match carries a positive frequency), `path_to` never raises.
   */
  lemma PathNeverRaises(s: Solver, entropyScore: (Solver, string) -> real, trueWord: string, maxGuesses: int)
    requires s.corpus.Valid() && s.corpus.wordLen <= |trueWord|
    requires forall st: Solver, w :: st.corpus.Valid() && w in st.Matches() ==> entropyScore(st, w) > 0.0
    ensures !Path(s, entropyScore, trueWord, maxGuesses).raised
  {
    var move := Rounds(entropyScore, trueWord);
    assert Path(s, entropyScore, trueWord, maxGuesses) == Game(s, move, trueWord, maxGuesses);
    forall st: Solver | true ensures move(st) != Raise {
      if st.corpus.Valid() && st.corpus.wordLen <= |trueWord| && st.Matches() != [] {
        BestGuessesNonEmpty(st, entropyScore);
      }
    }
    GameNeverRaises(s, move, trueWord, maxGuesses);
  }

  /**
   * The body of the loop of `path_to`: what the solver does in one round, with
   * the pattern computed by the method `FromWords`.
   */
  method PlayRound(s: Solver, entropyScore: (Solver, string) -> real, trueWord: string) returns (m: Move)
    requires s.corpus.Valid() && s.corpus.wordLen <= |trueWord|
    ensures m == Round(s, entropyScore, trueWord)
  {
    if s.Matches() == [] {
      return Stop;
    }
    var best := s.BestGuesses(entropyScore);
    if best == [] {
      return Raise;
    }
    var guess := best[0];
    assert guess in best;
    var colors := FromWords(guess, trueWord);
    m := Play(Clue(guess, colors));
  }

  /**
   * `path_to` as the loop it is: it plays rounds until one stops, raises or
   * guesses the answer, or `maxGuesses` rounds have been played.
   */
  method PathTo(s: Solver, entropyScore: (Solver, string) -> real, trueWord: string, maxGuesses: int)
    returns (clues: seq<Clue>, raised: bool)
    requires s.corpus.Valid() && s.corpus.wordLen <= |trueWord|
    ensures Run(clues, raised) == Path(s, entropyScore, trueWord, maxGuesses)
  {
    ghost var move := Rounds(entropyScore, trueWord);
    var solver := s;
    clues, raised := [], false;
    var left := maxGuesses;
    while left > 0
      invariant solver.corpus == s.corpus
      invariant Game(s, move, trueWord, maxGuesses).clues == clues + Game(solver, move, trueWord, left).clues
      invariant Game(s, move, trueWord, maxGuesses).raised == (raised || Game(solver, move, trueWord, left).raised)
    {
      var m := PlayRound(solver, entropyScore, trueWord);
      assert move(solver) == m;
      GameUnfold(solver, move, trueWord, left);
      if m == Stop {
        break;
      } else if m == Raise {
        raised := true;
        break;
      }
      var clue := m.clue;
      ghost var next := Game(solver.WithClue(clue), move, trueWord, left - 1);
      AppendAssoc(clues, [clue], next.clues);
      clues := clues + [clue];
      if clue.guess == trueWord {
        break;
      }
      assert Game(solver, move, trueWord, left) == Run([clue] + next.clues, next.raised);
      assert Game(s, move, trueWord, maxGuesses).clues == clues + next.clues;
      solver := solver.WithClue(clue);
      left := left - 1;
    }
  }
}
