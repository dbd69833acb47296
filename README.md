# wordle_solver in Dafny

A model of the core of `wordle_solver`, a Wordle solver written in Python.

- **Colours and patterns** (`colors.dfy`, module `Colors`):
  - a guess earns one colour per letter: GREEN for the right letter in the right place, YELLOW for a letter the answer has elsewhere, GREY otherwise;
  - patterns are parsed from and formatted to digit strings such as `"0122"`.
- **The colouring algorithm** `Colors.from_words`:
  - `Feedback` specifies it declaratively, position by position;
  - `FromWords` is a faithful imperative version. It keeps the tile array, walks the answer's letters in first-occurrence order, and runs a GREEN pass followed, if credit is left, by a YELLOW pass, each with its own `break`;
  - `FromWords` is proved equal to `Feedback`.
- **Clues** (`clues.dfy`, module `Clues`):
  - a clue is a guess and the pattern it earned, and it matches a word when the guess earns the same pattern against that word;
  - a clue set matches a word when all of its clues do (or, fuzzily, when any clue does);
  - a clue set filters a word stream, keeping its order.
- **The corpus** (`corpus.dfy`, module `Corpus`):
  - the words of a language's word list that have the right length, are alphabetic and are more frequent than a threshold;
  - the running-mean cut-off `iter_weighted_head`, which keeps words from a stream until one's frequency falls to at most a ratio of the mean so far. It is modelled as a specification function (`WeightedHead`) and as the loop (`IterWeightedHead`), and the two are proved equal.
- **The solver** (`solver.dfy`, module `Solvers`):
  - the matches are the weighted head of the corpus words every clue matches;
  - the choices add, in soft mode with more than one clue, the fuzzy matches, without duplicates;
  - the best guesses are the choices with a positive score, best first, by a stable sort;
  - `path_to` is the loop that plays the best guess, adds the clue it earned and goes on, until:
    - nothing matches;
    - the answer is guessed;
    - the maximum number of guesses is reached.

    It is modelled generically as `Game` over any round function, then instantiated as `Path`. The loop itself is the method `PathTo`, proved equal to `Path`.
- **Sequences** (`seqs.dfy`, module `Seqs`): the generic parts that the Python code gets from its standard library:
  - generator filtering;
  - `OrderedDict.fromkeys` de-duplication;
  - the stable `sorted(..., reverse=True)` as an insertion sort.

The word list, the word frequency table, `str.isalpha` and the entropy score are parameters of the model. See "Left out" below.

## Model

| member | source | states |
|---|---|---|
| Colors.ColorOfDigit | wordle_solver/clue.py:7-10 | a character names a colour exactly when it is `0`, `1` or `2`, and the colour's value is that digit |
| Colors.Parse | wordle_solver/clue.py:15-17 | the parse succeeds exactly on strings made only of `0`, `1`, `2`; the pattern has one colour per character, with that digit as its value; otherwise the error names the first character `int`/`Color` rejects |
| Colors.Format | wordle_solver/clue.py:7-10 | a pattern is written with one digit per colour |
| Colors.ParseFormat | wordle_solver/clue.py:15-17 | parsing the digit string of any pattern gives back that pattern |
| Colors.FormatParse | wordle_solver/clue.py:15-17 | every string that parses is the digit string of its pattern |
| Colors.ParseExamples | tests.py:11-13 | the parse tests: `""` is the empty pattern, `"012"` is GREY, YELLOW, GREEN; and `"0312"` fails at index 1 |
| Colors.OccIsMultiplicity | wordle_solver/clue.py:81-83 | the letter count kept by `Counter` is the multiplicity of the letter in the word |
| Colors.OccPositive | wordle_solver/clue.py:81-83 | a letter's count is positive exactly when the letter occurs in the word |
| Colors.LetterCounts | wordle_solver/clue.py:81-83 | `Counter(word)`: its keys are the letters of the word, each once; looking up any letter gives its number of occurrences (0 when absent, as for a missing `Counter` key); every key has a positive count |
| Colors.Feedback | wordle_solver/clue.py:19-45 | the declarative pattern: one colour per guess letter (the tile list starts and ends with the guess's length); its colours are fixed by `FeedbackGreen`, `FeedbackCredit` and `FeedbackYellowLeftmost` |
| Colors.FeedbackGreen | wordle_solver/clue.py:31-34 | a position is GREEN exactly when the guess and the answer have the same letter there |
| Colors.FeedbackAbsent | wordle_solver/clue.py:25-28 | a guess letter that does not occur in the answer is GREY, since only the answer's letters are placed |
| Colors.FeedbackSelf | wordle_solver/clue.py:31-37 | guessing the answer itself turns every position GREEN |
| Colors.FeedbackYellowLeftmost | wordle_solver/clue.py:39-44 | YELLOW tiles go to the leftmost non-exact positions of a letter: a YELLOW at `i` makes YELLOW every earlier position of the same letter that is not an exact match |
| Colors.FeedbackCredit | wordle_solver/clue.py:29 | for every letter, the number of its GREEN and YELLOW tiles is the minimum of its count in the answer and in the guess |
| Colors.ExactWithinCredit | wordle_solver/clue.py:29-37 | a letter's exact matches never exceed that minimum, so the GREEN pass never runs out of credit before its last exact match |
| Colors.ExampleBaAb | tests.py:23 | `ba` against `ab` is YELLOW, YELLOW |
| Colors.ExampleBabaAbba | tests.py:24 | `baba` against `abba` is YELLOW, YELLOW, GREEN, GREEN |
| Colors.ExampleBbbAabb | tests.py:25 | `bbb` against `aabb` is YELLOW, GREY, GREEN |
| Colors.FeedbackExamples | tests.py:19-29 | all six `from_words` tests, each as "parsing the expected digits gives the pattern of guess against answer" |
| Colors.PlaceGreens | wordle_solver/clue.py:31-37 | the GREEN pass for one letter touches only that letter's tiles. If it breaks, they are final; otherwise exactly the exact matches are GREEN and the credit left is the minimum count less the exact matches, and is positive |
| Colors.PlaceYellows | wordle_solver/clue.py:38-44 | the YELLOW pass (the `for`–`else` branch) touches only that letter's tiles and turns YELLOW its non-exact positions, left to right, while credit lasts |
| Colors.PlaceLetter | wordle_solver/clue.py:26-44 | one iteration of the outer loop for a letter in both words gives each of its tiles its final colour and leaves every other tile unchanged |
| Colors.PlaceAll | wordle_solver/clue.py:25-44 | the outer loop over the answer's letters leaves each tile GREY or, once its letter has been visited, at its final colour |
| Colors.AllPlaced | wordle_solver/clue.py:25-28 | once every letter of the answer has been visited, the tile array is the pattern |
| Colors.FromWords | wordle_solver/clue.py:19-45 | `from_words`, run on an array of tiles, returns exactly the declarative pattern `Feedback(guess, answer)` |
| Clues.Clue.Matches | wordle_solver/clue.py:56-58 | a word matches a clue when the guess earns the clue's pattern against it (a word shorter than the guess never matches; see "Left out"); the definition every clue lemma relies on |
| Clues.ClueSet.AllMatch | wordle_solver/clue.py:66-68 | every clue of the set matches the word; the definition behind `IterMatches` |
| Clues.ClueSet.AnyMatch | wordle_solver/clue.py:70-72 | some clue of the set matches the word; the definition behind `IterFuzzyMatches` |
| Clues.FromGuess | wordle_solver/clue.py:52-54 | the clue keeps the guess, has one colour per guess letter, and matches the answer it was made from |
| Clues.MatchesWord | wordle_solver/clue.py:56-58 | recomputing the pattern with `FromWords` and comparing decides `matches` |
| Clues.MatchesGreen | wordle_solver/clue.py:56-58 | a word matching a clue agrees with its guess exactly at the GREEN positions |
| Clues.AllGreenMatchesOnlyGuess | wordle_solver/clue.py:56-58 | an all-GREEN clue is matched, among words of its length, only by its guess |
| Clues.FromGuessSelf | wordle_solver/clue.py:52-54 | the clue earned by guessing the answer is all GREEN |
| Clues.ClueSet.Union | wordle_solver/clue.py:63-64 | a clue is in the union exactly when it is in either set |
| Clues.ClueSet.IterMatches | wordle_solver/clue.py:74-75 | a word is kept exactly when it is in the stream and every clue matches it; it is kept as often as it occurs; the result is an order-preserving subsequence |
| Clues.ClueSet.IterFuzzyMatches | wordle_solver/clue.py:77-78 | the same, for words that some clue matches |
| Clues.EmptyClueSet | wordle_solver/clue.py:66-72 | the empty set matches every word in `all_match` and no word in `any_match` |
| Clues.AllMatchImpliesAnyMatch | wordle_solver/clue.py:66-72 | on a non-empty set, `all_match` implies `any_match` |
| Clues.UnionAllMatch | wordle_solver/clue.py:63-68 | the union matches a word exactly when both sets do |
| Clues.UnionPresent | wordle_solver/clue.py:63-64 | adding a clue already present changes neither the set nor what it matches |
| Clues.UnionNarrowsMatches | wordle_solver/clue.py:74-75 | after adding clues the matches are a subsequence of the matches before |
| Corpus.Corpus.Contains | wordle_solver/corpus.py:22-23 | a word is in the corpus when it has the corpus word length, is alphabetic and its frequency exceeds the threshold; the definition behind `Words` |
| Corpus.Corpus.Words | wordle_solver/corpus.py:36-39 | the list holds exactly the source words the corpus contains, each as often as in the source, in source order |
| Corpus.Corpus.ValidWords | wordle_solver/corpus.py:22-23 | every corpus word has a positive frequency, since it exceeds a threshold that is not negative, and no word occurs twice |
| Corpus.Corpus.Passes | wordle_solver/corpus.py:31-32 | the test a word must pass to be yielded: its frequency over the mean frequency of the words up to and including it exceeds the ratio |
| Corpus.Corpus.CutOff | wordle_solver/corpus.py:30-33 | the index where the loop breaks: every word before it passes the frequency-over-mean test, and the word at it fails |
| Corpus.Corpus.WeightedHead | wordle_solver/corpus.py:28-34 | the yielded words are a prefix of the stream, each passes the test, and the first word left out fails it |
| Corpus.Corpus.MeanStep | wordle_solver/corpus.py:31 | the running update keeps the mean of the frequencies seen so far; the initial 1.0 carries weight 0 |
| Corpus.Corpus.UpdateMean | wordle_solver/corpus.py:31 | one update of the running mean gives the mean up to the current word, which is positive |
| Corpus.Corpus.IterWeightedHead | wordle_solver/corpus.py:28-34 | the loop with its running mean and `break` yields exactly `WeightedHead` |
| Corpus.Corpus.WeightedHeadFirst | wordle_solver/corpus.py:29-33 | the first word is yielded exactly when the ratio is below 1, since its ratio to the mean is 1 |
| Solvers.Solver.WithClue | wordle_solver/solver.py:39-41 | the new solver has the clue added to its clues and the same corpus, mode and ratio |
| Solvers.Solver.Matches | wordle_solver/solver.py:34-37 | every match is a corpus word that every clue matches; the matches keep corpus order and have no duplicates |
| Solvers.Solver.FuzzyMatches | wordle_solver/solver.py:75-79 | every fuzzy match is a corpus word some clue matches, in corpus order |
| Solvers.FuzzyMatchesHead | wordle_solver/solver.py:75-76 | the any-matching corpus words have positive frequencies; the fuzzy matches are a prefix of them, every fuzzy match passes the cut-off, and the first of them left out fails it |
| Solvers.Solver.AddsFuzzy | wordle_solver/solver.py:29 | the fuzzy matches are added exactly when not in hard mode and with more than one clue; the condition `ChoicesShape` splits on |
| Solvers.Solver.Choices | wordle_solver/solver.py:25-32 | every choice is a corpus word; its shape is stated by `Solvers.ChoicesShape` |
| Solvers.Solver.GetScore | wordle_solver/solver.py:55-58 | the score is 0 while nothing matches, and otherwise the entropy score |
| Solvers.Solver.Scored | wordle_solver/solver.py:21-22 | every scored word is a corpus word; its order is stated by `Solvers.ScoredOrder` |
| Solvers.Solver.BestGuesses | wordle_solver/solver.py:18-23 | every best guess is a corpus word; membership, order and stability are stated by the `BestGuesses` lemmas |
| Solvers.MatchesHead | wordle_solver/solver.py:34-37 | the clue-matching corpus words have positive frequencies; the matches are a prefix of them, every match passes the cut-off, and the first of them left out fails it, so the matches end at the first failing word |
| Solvers.ChoicesShape | wordle_solver/solver.py:25-32 | in hard mode or with at most one clue, the choices are the matches. Otherwise they are the matches followed by the fuzzy matches not already among them, each once. Either way a word is a choice exactly when it is a match or an added fuzzy match, and no choice occurs twice |
| Solvers.BestGuessesMembers | wordle_solver/solver.py:21-23 | a word is a best guess exactly when it is a choice with a positive score |
| Solvers.BestGuessesSorted | wordle_solver/solver.py:23 | the best guesses have no duplicates and are in non-increasing score order |
| Solvers.BestGuessesStable | wordle_solver/solver.py:23 | words with equal scores keep their choices order, as Python's stable sort keeps them |
| Solvers.ScoredOrder | wordle_solver/solver.py:21-22 | the positively scored words are a subsequence of the choices |
| Solvers.BestGuessesNonEmpty | wordle_solver/solver.py:46-48 | when something matches and the score is positive on the matches, `best_guesses[0]` exists |
| Solvers.WithClueTwice | wordle_solver/solver.py:39-41 | adding the same clue twice is adding it once |
| Solvers.Advance | wordle_solver/solver.py:53 | adding a run of clues one by one keeps the corpus, the mode and the ratio |
| Solvers.AdvanceClues | wordle_solver/solver.py:53 | after adding a run of clues, the clue set is the old set plus those clues |
| Solvers.Game | wordle_solver/solver.py:43-53 | the loop of `path_to` for any round function: at most `maxGuesses` clues, and only the last one may have guessed the answer |
| Solvers.GameRounds | wordle_solver/solver.py:45-53 | the `k`-th clue is the one the round plays on the solver that has the clues before it |
| Solvers.GameRaises | wordle_solver/solver.py:45-48 | a game raises only before its last round, on a solver whose round raises |
| Solvers.GameStops | wordle_solver/solver.py:45-52 | a game that neither raised nor used up its rounds, and whose last guess was not the answer, ended on a solver whose round stops |
| Solvers.GameNeverRaises | wordle_solver/solver.py:43-53 | a round function that never raises makes a game that never raises |
| Solvers.Round | wordle_solver/solver.py:46-49 | one round stops exactly when nothing matches, and fails (the `IndexError` of `best_guesses[0]`) exactly when something matches but no guess is on offer. Otherwise it plays the first best guess, with the clue it earns, which the answer matches and whose guess has the corpus word length |
| Solvers.Path | wordle_solver/solver.py:43-53 | `path_to`: at most `maxGuesses` clues, and only the last one may have guessed the answer |
| Solvers.PathRounds | wordle_solver/solver.py:46-50 | each clue of the path was played by a solver with matches, its guess being that solver's first best guess; the answer matches it |
| Solvers.PathRaises | wordle_solver/solver.py:46-48 | the path fails only before `maxGuesses` rounds, on a solver with matches but no best guess |
| Solvers.PathStops | wordle_solver/solver.py:46-48 | a path that ends early without failing and without guessing the answer ends on a solver with no matches |
| Solvers.PathNeverRaises | wordle_solver/solver.py:46-48 | with a score that is positive on every match, the path never fails |
| Solvers.PlayRound | wordle_solver/solver.py:46-49 | the round, computed with `FromWords`, is the round function `Round` |
| Solvers.PathTo | wordle_solver/solver.py:43-53 | the loop of `path_to` yields exactly the clues of `Path`, and fails exactly when it does |
| Seqs.Filter | wordle_solver/clue.py:74-78 | generator filtering: membership, per-element multiplicity and order are kept for the elements that pass the predicate |
| Seqs.DedupAfter | wordle_solver/solver.py:31 | `OrderedDict.fromkeys`: exactly the elements not yet seen, each once, as an order-preserving subsequence |
| Seqs.DedupAfterConcat | wordle_solver/solver.py:31 | filling a key-ordered dict from `a + b` is filling it from `a`, then from `b` against what `a` added |
| Seqs.DedupAfterPrefix | wordle_solver/solver.py:31 | first-occurrence order: the de-duplication of every prefix is a prefix of the de-duplication, so each element sits where it first occurs |
| Seqs.DedupExample | wordle_solver/solver.py:31 | `[1, 2, 1]` de-duplicates to `[1, 2]` |
| Seqs.DedupAfterAppend | wordle_solver/solver.py:31 | de-duplicating a duplicate-free prefix followed by more keeps the prefix and de-duplicates the rest against it |
| Seqs.SortDesc | wordle_solver/solver.py:23 | `sorted(..., reverse=True)`: a permutation of its input in non-increasing key order |
| Seqs.SortDescStable | wordle_solver/solver.py:23 | the sort is stable: the elements of any one key keep their input order |

## Left out

- Colors.Feedback, Colors.FromWords and Clues.FromGuess require the answer to be at least as long as the guess, so `from_words` on a shorter answer is not modelled. On a shorter answer Python reads `answer[guess_index]` only at a still-GREY position of one of the answer's letters, and only until that letter's credit runs out or the `continue` skips it. Sometimes it returns a pattern: `from_words("ab", "a")` is GREEN, GREY and `from_words("xy", "a")` is GREY, GREY. Sometimes it raises `IndexError`, as `from_words("ba", "a")` does.
- Solvers.Round, Solvers.Path, Solvers.PathTo, Solvers.PlayRound and the `Path` lemmas require the answer to be at least as long as the corpus word length. `path_to` takes its answer from the caller, so a shorter answer can reach it; that case is not modelled.
- Clues.Clue.Matches says that a word shorter than the guess never matches. Python's `matches` on such a word either raises `IndexError` or compares the pattern it computes, which can be equal: a clue for `ab` with pattern GREEN, GREY matches `a`.
- Colors.Parse accepts only the ASCII digits `0`, `1` and `2`. Python's `int` on one character also accepts other Unicode decimal digits, so a character such as Arabic-Indic one parses as YELLOW there; that difference is not modelled.
- The entropy part of `get_score` (wordle_solver/solver.py:59-73) is a parameter `entropyScore` of the model. Its floating-point logarithms are not modelled; only the guard for the empty match list is.
- Floating point is replaced by exact real arithmetic throughout, so rounding in the running mean of `iter_weighted_head` is not modelled.
- `word_frequency`, `iter_wordlist` and `str.isalpha` come from libraries outside the repository. They become the fields `freq`, `source` and `isAlpha` of the corpus, and the language field is dropped with them.
- Corpus.Corpus.Valid assumes that the word list names each word once and that the frequency threshold is not negative. Every yielded word then has a positive frequency, which rules out the division by zero in `iter_weighted_head`; Corpus.Corpus.IterWeightedHead requires positive frequencies on its stream for the same reason.
- Caching (`functools.cache`), laziness and generators are modelled as eager values. `path_to` returns its whole list of clues.
- wordle_solver/constants.py is not part of this model: the default word length, frequency threshold, ratio, hard-mode flag and guess limit are parameters.
- wordle_solver/__main__.py (the interactive command line) is left out: it is I/O.
- The solver test in tests.py:34-50 is not modelled, because it depends on the real word list and frequency table.
- Solvers.Rounds, the round function `Path` uses, answers `Stop` on a solver whose corpus is not valid. Every solver reached from a valid one keeps its corpus, so this never happens on a path, but it is not how Python behaves.
- Solvers.Solver.Choices, Solvers.Solver.Scored and Solvers.Solver.BestGuesses state only that their words come from the corpus. Their full contracts are the lemmas ChoicesShape, ScoredOrder, BestGuessesMembers, BestGuessesSorted and BestGuessesStable, kept apart so that the functions stay cheap to unfold.
