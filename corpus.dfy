/**
 * The word corpus of wordle_solver/corpus.py: the words of a source word list
 * that have the right length, are alphabetic and are frequent enough, and the
 * running-mean cut-off that keeps only the head of a frequency-ordered word
 * stream. The word list, the frequency table and `str.isalpha` are abstract.
 */
module Corpus {
  import opened Seqs

  /**
   * A corpus: the word length and the frequency threshold it was built with,
   * the language's word list in its own order (`iter_wordlist`), the word
   * frequency (`word_frequency`) and the alphabetic test (`str.isalpha`).
   */
  datatype Corpus = Corpus(wordLen: int, minWordFreq: real, source: seq<string>,
                           freq: string -> real, isAlpha: string -> bool)
  {
    /**
     * The threshold is not negative, so every corpus word has a positive
     * frequency, and the word list names each word once.
     */
    predicate Valid()
    {
      minWordFreq >= 0.0 && NoDups(source)
    }

    /** `__contains__`: right length, alphabetic, and more frequent than the threshold. */
    predicate Contains(word: string)
    {
      |word| == wordLen && isAlpha(word) && freq(word) > minWordFreq
    }

    /** `__iter__` over `_wordlist`: the source words the corpus contains, in source order. */
    function Words(): (r: seq<string>)
      ensures forall w :: w in r <==> w in source && Contains(w)
      ensures forall w :: multiset(r)[w] == if Contains(w) then multiset(source)[w] else 0
      ensures IsSubsequence(r, source)
    {
      Filter(source, w => Contains(w))
    }

    /** In a valid corpus every word has a positive frequency and occurs once. */
    lemma ValidWords()
      requires Valid()
      ensures AllPositive(Words()) && NoDups(Words())
    {
      var r := Words();
      NoDupsByMultiset(r, source);
      forall i | 0 <= i < |r| ensures freq(r[i]) > 0.0 {
        assert r[i] in r;
      }
    }

    /** Every word of `words` has a positive frequency. */
    predicate AllPositive(words: seq<string>)
    {
      forall i :: 0 <= i < |words| ==> freq(words[i]) > 0.0
    }

    /** A subsequence of words with positive frequencies has positive frequencies. */
    lemma SubsequencePositive(r: seq<string>, words: seq<string>)
      requires IsSubsequence(r, words) && AllPositive(words)
      ensures AllPositive(r)
    {
      SubsequenceElements(r, words);
      forall i | 0 <= i < |r| ensures freq(r[i]) > 0.0 {
        var j :| 0 <= j < |words| && words[j] == r[i];
      }
    }

    /** The total frequency of `words`. */
    function FreqSum(words: seq<string>): (r: real)
      ensures AllPositive(words) && words != [] ==> r > 0.0
      decreases |words|
    {
      if words == [] then 0.0
      else
        var init := words[..|words| - 1];
        assert AllPositive(words) ==> AllPositive(init);
        FreqSum(init) + freq(words[|words| - 1])
    }

    /** The arithmetic mean of the frequencies of `words`. */
    function Mean(words: seq<string>): real
      requires words != []
    {
      FreqSum(words) / |words| as real
    }

    /**
     * The test `iter_weighted_head` applies to the word at index `k`: its
     * frequency over the mean frequency of the words up to and including it
     * exceeds the ratio.
     */
    predicate Passes(ratio: real, words: seq<string>, k: nat)
      requires k < |words| && AllPositive(words)
    {
      assert AllPositive(words[..k + 1]);
      freq(words[k]) / Mean(words[..k + 1]) > ratio
    }

    /** The first index at or after `k` whose word fails the test, or `|words|`. */
    function CutOff(ratio: real, words: seq<string>, k: nat): (n: nat)
      requires k <= |words| && AllPositive(words)
      ensures k <= n <= |words|
      ensures forall j :: k <= j < n ==> Passes(ratio, words, j)
      ensures n < |words| ==> !Passes(ratio, words, n)
      decreases |words| - k
    {
      if k == |words| then k
      else if Passes(ratio, words, k) then CutOff(ratio, words, k + 1)
      else k
    }

    /**
     * The words `iter_weighted_head` yields: the longest prefix of `words`
     * every word of which passes the test, ending at the first word that fails.
     */
    function WeightedHead(ratio: real, words: seq<string>): (r: seq<string>)
      requires AllPositive(words)
      ensures |r| <= |words| && r == words[..|r|]
      ensures forall k :: 0 <= k < |r| ==> Passes(ratio, words, k)
      ensures |r| < |words| ==> !Passes(ratio, words, |r|)
    {
      words[..CutOff(ratio, words, 0)]
    }

    /**
     * The update `iter_weighted_head` makes to its running mean at the `n`-th
     * word (counted from 1) yields the mean of the first `n` frequencies; the
     * initial value 1.0 carries weight 0.
     */
    lemma MeanStep(words: seq<string>, n: nat)
      requires 1 <= n <= |words|
      ensures (if n == 1 then 1.0 else Mean(words[..n - 1])) * ((n - 1) as real / n as real)
              + freq(words[n - 1]) * (1.0 / n as real) == Mean(words[..n])
    {
      var w := words[..n];
      assert w[..|w| - 1] == words[..n - 1];
      var s, f, k := FreqSum(words[..n - 1]), freq(words[n - 1]), (n - 1) as real;
      assert FreqSum(w) == s + f;
      if n > 1 {
        calc {
          (s / k) * (k / (k + 1.0)) + f * (1.0 / (k + 1.0));
          s / (k + 1.0) + f / (k + 1.0);
          (s + f) / (k + 1.0);
        }
      }
    }

    /**
     * The update `iter_weighted_head` makes to its running mean at the `n`-th
     * word: from the mean of the words before it, the positive mean up to it.
     */
    method UpdateMean(words: seq<string>, n: nat, mean: real) returns (next: real)
      requires 1 <= n <= |words| && AllPositive(words)
      requires mean == if n == 1 then 1.0 else Mean(words[..n - 1])
      ensures next == Mean(words[..n]) && next > 0.0
    {
      MeanStep(words, n);
      assert AllPositive(words[..n]);
      next := mean * ((n - 1) as real / n as real) + freq(words[n - 1]) * (1.0 / n as real);
    }

    /**
     * `iter_weighted_head`: walks the words keeping the running mean of their
     * frequencies, and yields each word until the first whose frequency over
     * that mean is at most the ratio.
     */
    method IterWeightedHead(minFreqRatio: real, words: seq<string>) returns (head: seq<string>)
      requires AllPositive(words)
      ensures head == WeightedHead(minFreqRatio, words)
    {
      var meanFreq := 1.0;
      head := [];
      var i := 1;
      while i <= |words|
        invariant 1 <= i <= |words| + 1
        invariant head == words[..i - 1]
        invariant meanFreq == if i == 1 then 1.0 else Mean(words[..i - 1])
        invariant CutOff(minFreqRatio, words, 0) == CutOff(minFreqRatio, words, i - 1)
      {
        var word := words[i - 1];
        meanFreq := UpdateMean(words, i, meanFreq);
        if freq(word) / meanFreq <= minFreqRatio {
          assert CutOff(minFreqRatio, words, i - 1) == i - 1;
          break;
        }
        assert CutOff(minFreqRatio, words, i - 1) == CutOff(minFreqRatio, words, i);
        assert head + [word] == words[..i];
        head := head + [word];
        i := i + 1;
      }
    }

    /** With positive frequencies, the first word is yielded exactly when the ratio is below 1. */
    lemma WeightedHeadFirst(ratio: real, words: seq<string>)
      requires words != [] && AllPositive(words)
      ensures WeightedHead(ratio, words) != [] <==> ratio < 1.0
    {
      var w, f := words[..1], freq(words[0]);
      assert w[..|w| - 1] == [] && w[|w| - 1] == words[0];
      assert FreqSum(w) == f;
      assert Mean(w) == f / 1.0 == f;
      assert f / f == 1.0;
    }
  }
}
