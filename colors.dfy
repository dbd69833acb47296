/**
 * The feedback engine of wordle_solver/clue.py: the three tile colours, the
 * digit-string encoding of a colour pattern (`Colors.parse`), the letter
 * counter (`_get_letter_counts`) and the computation of the pattern a guess
 * earns against an answer (`Colors.from_words`), with Wordle's rules for
 * repeated letters.
 */
module Colors {
  import opened Seqs

  /** A tile colour; its digit is 0 for GREY, 1 for YELLOW and 2 for GREEN. */
  datatype Color = Grey | Yellow | Green

  /** A colour pattern, one colour per guess letter (the tuple subclass `Colors`). */
  type Pattern = seq<Color>

  /** The digit that stands for a colour (the `Color` enum value). */
  function Digit(c: Color): char
  {
    match c
    case Grey => '0'
    case Yellow => '1'
    case Green => '2'
  }

  /** The colour whose digit is `ch`, if there is one (`Color(int(ch))`). */
  function ColorOfDigit(ch: char): (r: Option<Color>)
    ensures r.Some? <==> ch in "012"
    ensures r.Some? ==> Digit(r.value) == ch
  {
    if ch == '0' then Some(Grey)
    else if ch == '1' then Some(Yellow)
    else if ch == '2' then Some(Green)
    else None
  }

  datatype Option<T> = None | Some(value: T)

  /** Outcome of parsing: a pattern, or the ValueError raised at a position. */
  datatype ParseResult = Parsed(pattern: Pattern) | ValueError(at: nat)

  /**
   * `Colors.parse`: one colour per character; the first character that is
   * not a digit 0, 1 or 2 raises ValueError.
   */
  function Parse(s: string): (r: ParseResult)
    ensures r.Parsed? <==> forall i :: 0 <= i < |s| ==> s[i] in "012"
    ensures r.Parsed? ==> |r.pattern| == |s| && forall i :: 0 <= i < |s| ==> Digit(r.pattern[i]) == s[i]
    ensures r.ValueError? ==> r.at < |s| && s[r.at] !in "012" && forall i :: 0 <= i < r.at ==> s[i] in "012"
    decreases |s|
  {
    if s == [] then Parsed([])
    else
      match ColorOfDigit(s[0])
      case None => ValueError(0)
      case Some(c) =>
        match Parse(s[1..])
        case Parsed(p) => Parsed([c] + p)
        case ValueError(k) => ValueError(k + 1)
  }

  /** The digit string of a pattern: the encoding `Parse` reads. */
  function Format(p: Pattern): (s: string)
    ensures |s| == |p|
  {
    seq(|p|, i requires 0 <= i < |p| => Digit(p[i]))
  }

  /** Parsing the digit string of a pattern gives the pattern back. */
  lemma ParseFormat(p: Pattern)
    ensures Parse(Format(p)) == Parsed(p)
  {
    var r := Parse(Format(p));
    assert forall i :: 0 <= i < |p| ==> Format(p)[i] in "012";
    assert r.Parsed?;
    forall i | 0 <= i < |p| ensures r.pattern[i] == p[i] {
      assert Digit(r.pattern[i]) == Digit(p[i]);
    }
  }

  /** A string that parses is the digit string of what it parses to. */
  lemma FormatParse(s: string)
    requires Parse(s).Parsed?
    ensures Format(Parse(s).pattern) == s
  {
  }

  /** The examples of tests.py: `''` and `'012'`, and a rejected string. */
  lemma ParseExamples()
    ensures Parse("") == Parsed([])
    ensures Parse("012") == Parsed([Grey, Yellow, Green])
    ensures Parse("0312") == ValueError(1)
  {
    assert "012"[1..] == "12" && "12"[1..] == "2" && "2"[1..] == "";
    assert "0312"[1..] == "312";
  }

  /*
   * Letter counting.
   */

  /** Number of positions of `s` that hold `c` (a `Counter` entry). */
  function Occ(s: string, c: char): nat
    decreases |s|
  {
    if s == [] then 0
    else Occ(s[..|s| - 1], c) + (if s[|s| - 1] == c then 1 else 0)
  }

  lemma {:induction false} OccIsMultiplicity(s: string, c: char)
    ensures Occ(s, c) == multiset(s)[c]
    decreases |s|
  {
    if s != [] {
      OccIsMultiplicity(s[..|s| - 1], c);
      assert s == s[..|s| - 1] + [s[|s| - 1]];
    }
  }

  /** A letter occurs iff its count is positive. */
  lemma OccPositive(s: string, c: char)
    ensures Occ(s, c) > 0 <==> c in s
  {
    OccIsMultiplicity(s, c);
  }

  /**
   * A `Counter` over the letters of a word: its keys in insertion order and
   * the count of each key (0 for a letter it does not hold, as `Counter`
   * answers for a missing key).
   */
  datatype Counter = Counter(keys: seq<char>, counts: map<char, nat>)
  {
    function Get(c: char): nat
    {
      if c in counts then counts[c] else 0
    }
  }

  /** `_get_letter_counts`: `Counter(word)`. */
  function LetterCounts(w: string): (r: Counter)
    ensures NoDups(r.keys)
    ensures forall c :: c in r.keys <==> c in w
    ensures forall c :: r.Get(c) == Occ(w, c)
    ensures forall c :: c in r.keys ==> r.Get(c) > 0
  {
    var r := Counter(Dedup(w), map c | c in Elements(w) :: Occ(w, c));
    assert forall c :: c !in w ==> Occ(w, c) == 0 by {
      forall c | c !in w ensures Occ(w, c) == 0 {
        OccPositive(w, c);
      }
    }
    assert forall c :: c in w ==> Occ(w, c) > 0 by {
      forall c | c in w ensures Occ(w, c) > 0 {
        OccPositive(w, c);
      }
    }
    r
  }

  /*
   * The pattern, defined position by position.
   */

  /** Positions `j < n` where guess and answer both hold `c` (exact matches of `c`). */
  function ExactOcc(g: string, a: string, c: char, n: nat): nat
    requires n <= |g| && n <= |a|
    decreases n
  {
    if n == 0 then 0
    else ExactOcc(g, a, c, n - 1) + (if g[n - 1] == c && a[n - 1] == c then 1 else 0)
  }

  /** Positions `j < n` where the guess holds `c` and the answer does not. */
  function MissOcc(g: string, a: string, c: char, n: nat): nat
    requires n <= |g| && n <= |a|
    decreases n
  {
    if n == 0 then 0
    else MissOcc(g, a, c, n - 1) + (if g[n - 1] == c && a[n - 1] != c then 1 else 0)
  }

  function Min(x: int, y: int): int
  {
    if x <= y then x else y
  }

  /** How many guess positions holding `c` are credited: min(count in answer, count in guess). */
  function Credit(g: string, a: string, c: char): nat
  {
    Min(Occ(a, c), Occ(g, c))
  }

  /**
   * The colour of guess position `i`: GREEN on an exact match; otherwise
   * YELLOW if, among the guess positions holding the same letter that are not
   * exact matches, `i` is one of the leftmost `Credit - ExactOcc` (the credit
   * left over once every exact match is paid); otherwise GREY.
   */
  function ColorAt(g: string, a: string, i: nat): Color
    requires i < |g| <= |a|
  {
    if g[i] == a[i] then Green
    else if MissOcc(g, a, g[i], i) < Credit(g, a, g[i]) - ExactOcc(g, a, g[i], |g|) then Yellow
    else Grey
  }

  /** The pattern `guess` earns against `answer`. */
  function Feedback(g: string, a: string): (p: Pattern)
    requires |g| <= |a|
    ensures |p| == |g|
  {
    seq(|g|, i requires 0 <= i < |g| => ColorAt(g, a, i))
  }

  /*
   * Counting lemmas.
   */

  lemma {:induction false} OccPrefix(s: string, c: char, n: nat)
    requires n < |s|
    ensures Occ(s[..n + 1], c) == Occ(s[..n], c) + (if s[n] == c then 1 else 0)
  {
    assert s[..n + 1][..n] == s[..n];
  }

  lemma {:induction false} ExactMissSplit(g: string, a: string, c: char, n: nat)
    requires n <= |g| <= |a|
    ensures Occ(g[..n], c) == ExactOcc(g, a, c, n) + MissOcc(g, a, c, n)
    decreases n
  {
    if n > 0 {
      ExactMissSplit(g, a, c, n - 1);
      OccPrefix(g, c, n - 1);
    }
  }

  lemma {:induction false} ExactBelowAnswer(g: string, a: string, c: char, n: nat)
    requires n <= |g| <= |a|
    ensures ExactOcc(g, a, c, n) <= Occ(a[..n], c)
    decreases n
  {
    if n > 0 {
      ExactBelowAnswer(g, a, c, n - 1);
      OccPrefix(a, c, n - 1);
    }
  }

  lemma {:induction false} OccPrefixMonotone(s: string, c: char, n: nat)
    requires n <= |s|
    ensures Occ(s[..n], c) <= Occ(s, c)
    decreases |s| - n
  {
    if n < |s| {
      OccPrefix(s, c, n);
      OccPrefixMonotone(s, c, n + 1);
    } else {
      assert s[..n] == s;
    }
  }

  /** The exact matches of a letter never exceed its credit. */
  lemma ExactWithinCredit(g: string, a: string, c: char)
    requires |g| <= |a|
    ensures ExactOcc(g, a, c, |g|) <= Credit(g, a, c)
  {
    ExactBelowAnswer(g, a, c, |g|);
    OccPrefixMonotone(a, c, |g|);
    ExactMissSplit(g, a, c, |g|);
    assert g[..|g|] == g;
  }

  lemma {:induction false} ExactMonotone(g: string, a: string, c: char, m: nat, n: nat)
    requires m <= n <= |g| <= |a|
    ensures ExactOcc(g, a, c, m) <= ExactOcc(g, a, c, n)
    ensures forall j :: m <= j < n && g[j] == c && a[j] == c ==> ExactOcc(g, a, c, m) < ExactOcc(g, a, c, n)
    decreases n - m
  {
    if m < n {
      ExactMonotone(g, a, c, m, n - 1);
    }
  }

  lemma {:induction false} MissMonotone(g: string, a: string, c: char, m: nat, n: nat)
    requires m <= n <= |g| <= |a|
    ensures MissOcc(g, a, c, m) <= MissOcc(g, a, c, n)
    ensures forall j :: m <= j < n && g[j] == c && a[j] != c ==> MissOcc(g, a, c, m) < MissOcc(g, a, c, n)
    decreases n - m
  {
    if m < n {
      MissMonotone(g, a, c, m, n - 1);
    }
  }

  /*
   * What the pattern promises.
   */

  /** A position is GREEN exactly where guess and answer agree. */
  lemma FeedbackGreen(g: string, a: string, i: nat)
    requires |g| <= |a| && i < |g|
    ensures Feedback(g, a)[i] == Green <==> g[i] == a[i]
  {
  }

  lemma ColorAtAbsent(g: string, a: string, i: nat)
    requires i < |g| <= |a| && g[i] !in a
    ensures ColorAt(g, a, i) == Grey
  {
    OccPositive(a, g[i]);
    assert g[i] != a[i];
  }

  /** A guess letter that the answer does not hold is GREY, however often the guess repeats it. */
  lemma FeedbackAbsent(g: string, a: string, i: nat)
    requires |g| <= |a| && i < |g| && g[i] !in a
    ensures Feedback(g, a)[i] == Grey
  {
    ColorAtAbsent(g, a, i);
  }

  /** A word guessed against itself is all GREEN. */
  lemma FeedbackSelf(w: string)
    ensures forall i :: 0 <= i < |w| ==> Feedback(w, w)[i] == Green
  {
  }

  /** Yellow tiles of a letter go to its leftmost non-exact positions. */
  lemma FeedbackYellowLeftmost(g: string, a: string, i: nat, j: nat)
    requires |g| <= |a| && j < i < |g|
    requires Feedback(g, a)[i] == Yellow
    requires g[j] == g[i] && g[j] != a[j]
    ensures Feedback(g, a)[j] == Yellow
  {
    MissMonotone(g, a, g[i], j + 1, i);
  }

  /** Guess positions `j < n` that hold `c` and are not GREY in `p`. */
  function CreditedOcc(g: string, p: Pattern, c: char, n: nat): nat
    requires n <= |g| && |p| == |g|
    decreases n
  {
    if n == 0 then 0
    else CreditedOcc(g, p, c, n - 1) + (if g[n - 1] == c && p[n - 1] != Grey then 1 else 0)
  }

  lemma {:induction false} CreditedPrefix(g: string, a: string, c: char, n: nat)
    requires n <= |g| <= |a|
    ensures CreditedOcc(g, Feedback(g, a), c, n)
         == ExactOcc(g, a, c, n) + Min(MissOcc(g, a, c, n), Credit(g, a, c) - ExactOcc(g, a, c, |g|))
    decreases n
  {
    ExactWithinCredit(g, a, c);
    if n > 0 {
      CreditedPrefix(g, a, c, n - 1);
    }
  }

  /**
   * Each letter is credited (GREEN or YELLOW) on exactly
   * min(count in answer, count in guess) guess positions.
   */
  lemma FeedbackCredit(g: string, a: string, c: char)
    requires |g| <= |a|
    ensures CreditedOcc(g, Feedback(g, a), c, |g|) == Min(Occ(a, c), Occ(g, c))
  {
    CreditedPrefix(g, a, c, |g|);
    ExactMissSplit(g, a, c, |g|);
    ExactWithinCredit(g, a, c);
    assert g[..|g|] == g;
  }

  lemma ExampleBaAb()
    ensures Feedback("ba", "ab") == [Yellow, Yellow]
  {
    var g, a := "ba", "ab";
    OccIsMultiplicity(a, 'b');
    OccIsMultiplicity(g, 'b');
    OccIsMultiplicity(a, 'a');
    OccIsMultiplicity(g, 'a');
    assert Occ(a, 'b') == 1 && Occ(g, 'b') == 1 && Occ(a, 'a') == 1 && Occ(g, 'a') == 1;
    assert ExactOcc(g, a, 'b', 2) == 0 && ExactOcc(g, a, 'a', 2) == 0;
    assert MissOcc(g, a, 'b', 0) == 0 && MissOcc(g, a, 'a', 1) == 0;
    assert ColorAt(g, a, 0) == Yellow && ColorAt(g, a, 1) == Yellow;
  }

  lemma ExampleBabaAbba()
    ensures Feedback("baba", "abba") == [Yellow, Yellow, Green, Green]
  {
    var g, a := "baba", "abba";
    BabaAbbaCounts();
    assert ColorAt(g, a, 0) == Yellow && ColorAt(g, a, 1) == Yellow;
  }

  /** The letter counts behind `ExampleBabaAbba`. */
  lemma BabaAbbaCounts()
    ensures Credit("baba", "abba", 'b') == 2 && Credit("baba", "abba", 'a') == 2
    ensures ExactOcc("baba", "abba", 'b', 4) == 1 && ExactOcc("baba", "abba", 'a', 4) == 1
    ensures MissOcc("baba", "abba", 'b', 0) == 0 && MissOcc("baba", "abba", 'a', 1) == 0
  {
    var g, a := "baba", "abba";
    assert g[..3] == "bab" && g[..2] == "ba" && g[..1] == "b";
    assert a[..3] == "abb" && a[..2] == "ab" && a[..1] == "a";
    OccIsMultiplicity(a, 'b');
    OccIsMultiplicity(g, 'b');
    OccIsMultiplicity(a, 'a');
    OccIsMultiplicity(g, 'a');
    assert Occ(a, 'b') == 2 && Occ(g, 'b') == 2 && Occ(a, 'a') == 2 && Occ(g, 'a') == 2;
  }

  lemma ExampleBbbAabb()
    ensures Feedback("bbb", "aabb") == [Yellow, Grey, Green]
  {
    var g, a := "bbb", "aabb";
    BbbAabbCounts();
    assert ColorAt(g, a, 0) == Yellow && ColorAt(g, a, 1) == Grey;
  }

  /** The letter counts behind `ExampleBbbAabb`. */
  lemma BbbAabbCounts()
    ensures Credit("bbb", "aabb", 'b') == 2 && ExactOcc("bbb", "aabb", 'b', 3) == 1
    ensures MissOcc("bbb", "aabb", 'b', 0) == 0 && MissOcc("bbb", "aabb", 'b', 1) == 1
  {
    var g, a := "bbb", "aabb";
    assert g[..2] == "bb" && g[..1] == "b";
    assert a[..3] == "aab" && a[..2] == "aa" && a[..1] == "a";
    OccIsMultiplicity(a, 'b');
    OccIsMultiplicity(g, 'b');
    assert Occ(a, 'b') == 2 && Occ(g, 'b') == 3;
  }

  /** The examples of tests.py, written with the digit encoding. */
  lemma FeedbackExamples()
    ensures Feedback("", "") == []
    ensures Parse("2") == Parsed(Feedback("a", "a"))
    ensures Parse("0") == Parsed(Feedback("b", "a"))
    ensures Parse("11") == Parsed(Feedback("ba", "ab"))
    ensures Parse("1122") == Parsed(Feedback("baba", "abba"))
    ensures Parse("102") == Parsed(Feedback("bbb", "aabb"))
  {
    ParseFormat([Green]);
    ParseFormat([Grey]);
    ParseFormat([Yellow, Yellow]);
    ParseFormat([Yellow, Yellow, Green, Green]);
    ParseFormat([Yellow, Grey, Green]);
    assert Format([Green]) == "2";
    assert Format([Grey]) == "0";
    assert Format([Yellow, Yellow]) == "11";
    assert Format([Yellow, Yellow, Green, Green]) == "1122";
    assert Format([Yellow, Grey, Green]) == "102";
    assert Feedback("a", "a") == [Green];
    assert Feedback("b", "a") == [Grey] by {
      ColorAtAbsent("b", "a", 0);
    }
    ExampleBaAb();
    ExampleBabaAbba();
    ExampleBbbAabb();
  }

  /*
   * `Colors.from_words`, the imperative algorithm.
   */

  /** The colour of position `j` once the letters in `done` have been placed. */
  function Placed(g: string, a: string, done: set<char>, j: nat): Color
    requires j < |g| <= |a|
  {
    if g[j] in done then ColorAt(g, a, j) else Grey
  }

  /**
   * The GREEN pass for one letter (the first inner loop of `from_words`):
   * marks its exact matches left to right, spending one unit of credit each,
   * and stops as soon as the credit is used up.
   */
  method PlaceGreens(guess: string, answer: string, tiles: array<Color>, letter: char, credit: int)
    returns (remaining: int, exhausted: bool)
    requires tiles.Length == |guess| <= |answer|
    requires credit == Credit(guess, answer, letter) > 0
    requires forall j {:trigger tiles[j]} :: 0 <= j < |guess| && guess[j] == letter ==> tiles[j] == Grey
    modifies tiles
    ensures forall j {:trigger tiles[j]} :: 0 <= j < |guess| && guess[j] != letter ==> tiles[j] == old(tiles[j])
    ensures exhausted ==>
      forall j {:trigger tiles[j]} :: 0 <= j < |guess| && guess[j] == letter ==> tiles[j] == ColorAt(guess, answer, j)
    ensures !exhausted ==> remaining == credit - ExactOcc(guess, answer, letter, |guess|) > 0
    ensures !exhausted ==>
      forall j {:trigger tiles[j]} :: 0 <= j < |guess| && guess[j] == letter ==>
        tiles[j] == if guess[j] == answer[j] then Green else Grey
  {
    ExactWithinCredit(guess, answer, letter);
    remaining, exhausted := credit, false;
    for i := 0 to |guess|
      invariant forall j {:trigger tiles[j]} :: 0 <= j < |guess| && guess[j] != letter ==> tiles[j] == old(tiles[j])
      invariant forall j {:trigger tiles[j]} :: 0 <= j < |guess| && guess[j] == letter ==>
        tiles[j] == if j < i && guess[j] == answer[j] then Green else Grey
      invariant remaining == credit - ExactOcc(guess, answer, letter, i) > 0
    {
      if guess[i] == letter && tiles[i] == Grey && guess[i] == answer[i] {
        tiles[i] := Green;
        remaining := remaining - 1;
        if remaining <= 0 {
          exhausted := true;
          ExactMonotone(guess, answer, letter, i + 1, |guess|);
          break;
        }
      }
    }
  }

  /**
   * The colour of a guess position holding `letter` once its YELLOW credit
   * `credit` has been handed out from left to right.
   */
  function Tile(g: string, a: string, letter: char, credit: int, j: nat): Color
    requires j < |g| <= |a|
  {
    if g[j] == a[j] then Green
    else if MissOcc(g, a, letter, j) < credit then Yellow
    else Grey
  }

  /** With the credit left after the GREEN pass, `Tile` is the colour `Feedback` gives. */
  lemma TilesAreColorAt(g: string, a: string, tiles: seq<Color>, letter: char, credit: int)
    requires |tiles| == |g| <= |a|
    requires credit == Credit(g, a, letter) - ExactOcc(g, a, letter, |g|)
    requires forall j :: 0 <= j < |g| && g[j] == letter ==> tiles[j] == Tile(g, a, letter, credit, j)
    ensures forall j :: 0 <= j < |g| && g[j] == letter ==> tiles[j] == ColorAt(g, a, j)
  {
  }

  lemma MissStep(g: string, a: string, c: char, i: nat)
    requires i < |g| <= |a|
    ensures MissOcc(g, a, c, i + 1) == MissOcc(g, a, c, i) + (if g[i] == c && a[i] != c then 1 else 0)
  {
  }

  /** Once the credit is spent at position `n`, every later miss of the letter stays GREY. */
  lemma CreditSpent(g: string, a: string, c: char, credit: int, n: nat)
    requires n <= |g| <= |a| && MissOcc(g, a, c, n) == credit
    ensures forall j :: n <= j < |g| && g[j] == c && a[j] != c ==> MissOcc(g, a, c, j) >= credit
  {
    forall j | n <= j < |g| && g[j] == c && a[j] != c ensures MissOcc(g, a, c, j) >= credit {
      MissMonotone(g, a, c, n, j);
    }
  }

  /**
   * The YELLOW pass for one letter (the `else` branch of the GREEN loop):
   * marks its non-GREEN guess positions left to right, spending one unit of
   * the credit left over each, and stops as soon as it is used up.
   */
  method PlaceYellows(guess: string, answer: string, tiles: array<Color>, letter: char, credit: int)
    returns (remaining: int)
    requires tiles.Length == |guess| <= |answer|
    requires credit > 0
    requires forall j {:trigger tiles[j]} :: 0 <= j < |guess| && guess[j] == letter ==>
      tiles[j] == if guess[j] == answer[j] then Green else Grey
    modifies tiles
    ensures forall j {:trigger tiles[j]} :: 0 <= j < |guess| && guess[j] != letter ==> tiles[j] == old(tiles[j])
    ensures forall j {:trigger tiles[j]} :: 0 <= j < |guess| && guess[j] == letter ==>
      tiles[j] == Tile(guess, answer, letter, credit, j)
  {
    remaining := credit;
    for i := 0 to |guess|
      invariant forall j {:trigger tiles[j]} :: 0 <= j < |guess| && guess[j] != letter ==> tiles[j] == old(tiles[j])
      invariant forall j {:trigger tiles[j]} :: 0 <= j < i && guess[j] == letter ==>
        tiles[j] == Tile(guess, answer, letter, credit, j)
      invariant forall j {:trigger tiles[j]} :: i <= j < |guess| && guess[j] == letter ==>
        tiles[j] == if guess[j] == answer[j] then Green else Grey
      invariant remaining == credit - MissOcc(guess, answer, letter, i) > 0
    {
      MissStep(guess, answer, letter, i);
      if guess[i] == letter && tiles[i] == Grey {
        tiles[i] := Yellow;
        remaining := remaining - 1;
        if remaining <= 0 {
          CreditSpent(guess, answer, letter, credit, i + 1);
          break;
        }
      }
    }
  }

  /**
   * One iteration of the outer loop of `from_words`: the GREEN pass for
   * `letter` and, unless it used up the credit, the YELLOW pass.
   */
  method PlaceLetter(guess: string, answer: string, tiles: array<Color>, letter: char, credit: int)
    requires tiles.Length == |guess| <= |answer|
    requires credit == Credit(guess, answer, letter) > 0
    requires forall j {:trigger tiles[j]} :: 0 <= j < |guess| && guess[j] == letter ==> tiles[j] == Grey
    modifies tiles
    ensures forall j {:trigger tiles[j]} :: 0 <= j < |guess| && guess[j] != letter ==> tiles[j] == old(tiles[j])
    ensures forall j {:trigger tiles[j]} :: 0 <= j < |guess| && guess[j] == letter ==> tiles[j] == ColorAt(guess, answer, j)
  {
    var remaining, exhausted := PlaceGreens(guess, answer, tiles, letter, credit);
    if !exhausted {
      ghost var left := remaining;
      remaining := PlaceYellows(guess, answer, tiles, letter, remaining);
      TilesAreColorAt(guess, answer, tiles[..], letter, left);
    }
  }

  /**
   * `Colors.from_words`: for each distinct letter of the answer, in
   * first-occurrence order, the GREEN pass and, unless it used up the credit
   * min(count in answer, count in guess), the YELLOW pass.
   */
  method FromWords(guess: string, answer: string) returns (colors: Pattern)
    requires |guess| <= |answer|
    ensures colors == Feedback(guess, answer)
  {
    var wordLetterCounts := LetterCounts(guess);
    var truthLetterCounts := LetterCounts(answer);
    var tiles := new Color[|guess|](_ => Grey);
    ghost var done := PlaceAll(guess, answer, tiles, truthLetterCounts.keys, truthLetterCounts, wordLetterCounts);
    colors := tiles[..];
    AllPlaced(guess, answer, done, colors);
  }

  /** The outer loop of `from_words`, over the letters of the answer. */
  method PlaceAll(guess: string, answer: string, tiles: array<Color>, letters: seq<char>,
                  truthLetterCounts: Counter, wordLetterCounts: Counter)
    returns (ghost done: set<char>)
    requires tiles.Length == |guess| <= |answer|
    requires NoDups(letters)
    requires forall c :: c in letters ==> c in answer
    requires forall c :: truthLetterCounts.Get(c) == Occ(answer, c)
    requires forall c :: wordLetterCounts.Get(c) == Occ(guess, c)
    requires forall j :: 0 <= j < |guess| ==> tiles[j] == Grey
    modifies tiles
    ensures forall c :: c in done <==> c in letters
    ensures forall j {:trigger tiles[j]} :: 0 <= j < |guess| ==> tiles[j] == Placed(guess, answer, done, j)
  {
    done := {};
    for k := 0 to |letters|
      invariant forall i :: 0 <= i < k ==> letters[i] in done
      invariant forall i :: k <= i < |letters| ==> letters[i] !in done
      invariant forall c :: c in done ==> c in letters
      invariant forall j {:trigger tiles[j]} :: 0 <= j < |guess| ==> tiles[j] == Placed(guess, answer, done, j)
    {
      var trueLetter := letters[k];
      var truthLetterCount := truthLetterCounts.Get(trueLetter);
      var wordTruthLetterCount := wordLetterCounts.Get(trueLetter);
      if wordTruthLetterCount == 0 {
        OccPositive(guess, trueLetter);
      } else {
        OccPositive(answer, trueLetter);
        PlaceLetter(guess, answer, tiles, trueLetter, Min(truthLetterCount, wordTruthLetterCount));
      }
      done := done + {trueLetter};
    }
  }

  /** Once every letter of the answer is placed, the tiles are the feedback. */
  lemma AllPlaced(g: string, a: string, done: set<char>, tiles: seq<Color>)
    requires |tiles| == |g| <= |a|
    requires forall c :: c in a ==> c in done
    requires forall j :: 0 <= j < |g| ==> tiles[j] == Placed(g, a, done, j)
    ensures tiles == Feedback(g, a)
  {
    forall j | 0 <= j < |g| ensures tiles[j] == Feedback(g, a)[j] {
      if g[j] !in a {
        ColorAtAbsent(g, a, j);
      }
    }
  }
}
