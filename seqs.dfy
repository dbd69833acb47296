/**
 * Sequence helpers shared by the feedback engine, the clue filters and the solver:
 * order-preserving filtering (Python generator comprehensions with an `if`),
 * first-occurrence de-duplication (`Counter` key order, `dict` and
 * `OrderedDict.fromkeys` key order) and the stable descending sort that
 * `sorted(..., key=..., reverse=True)` performs.
 */
module Seqs {

  /** `r` is `s` with some elements deleted and the others kept in their order. */
  ghost predicate IsSubsequence<T>(r: seq<T>, s: seq<T>)
    decreases |s|
  {
    if r == [] then true
    else if s == [] then false
    else (r[0] == s[0] && IsSubsequence(r[1..], s[1..])) || IsSubsequence(r, s[1..])
  }

  /** No element occurs twice. */
  predicate NoDups<T(==)>(s: seq<T>)
  {
    forall i, j :: 0 <= i < j < |s| ==> s[i] != s[j]
  }

  /** The set of the elements of `s`. */
  function Elements<T(!new)>(s: seq<T>): (e: set<T>)
    ensures forall x :: x in e <==> x in s
  {
    set x | x in s
  }

  lemma {:induction false} SubsequenceDropFirst<T>(r: seq<T>, s: seq<T>)
    requires r != [] && IsSubsequence(r, s)
    ensures IsSubsequence(r[1..], s)
    decreases |s|
  {
    if r[1..] != [] {
      if r[0] == s[0] && IsSubsequence(r[1..], s[1..]) {
      } else {
        SubsequenceDropFirst(r, s[1..]);
      }
    }
  }

  /** Every prefix of a subsequence of `s` is a subsequence of `s`. */
  lemma {:induction false} SubsequencePrefix<T>(r: seq<T>, s: seq<T>, k: nat)
    requires IsSubsequence(r, s) && k <= |r|
    ensures IsSubsequence(r[..k], s)
    decreases |s|
  {
    if k == 0 {
    } else if r[0] == s[0] && IsSubsequence(r[1..], s[1..]) {
      assert r[..k][1..] == r[1..][..k - 1];
      SubsequencePrefix(r[1..], s[1..], k - 1);
    } else {
      SubsequencePrefix(r, s[1..], k);
    }
  }

  lemma {:induction false} SubsequenceOfSelf<T>(s: seq<T>)
    ensures IsSubsequence(s, s)
    decreases |s|
  {
    if s != [] {
      SubsequenceOfSelf(s[1..]);
    }
  }

  /** A prefix is a subsequence. */
  lemma PrefixIsSubsequence<T>(s: seq<T>, k: nat)
    requires k <= |s|
    ensures IsSubsequence(s[..k], s)
  {
    SubsequenceOfSelf(s);
    SubsequencePrefix(s, s, k);
  }

  /** Being a subsequence is transitive. */
  lemma {:induction false} SubsequenceTrans<T>(a: seq<T>, b: seq<T>, c: seq<T>)
    requires IsSubsequence(a, b) && IsSubsequence(b, c)
    ensures IsSubsequence(a, c)
    decreases |c|
  {
    if a != [] {
      if b[0] == c[0] && IsSubsequence(b[1..], c[1..]) {
        if a[0] == b[0] && IsSubsequence(a[1..], b[1..]) {
          SubsequenceTrans(a[1..], b[1..], c[1..]);
        } else {
          SubsequenceTrans(a, b[1..], c[1..]);
        }
      } else {
        SubsequenceTrans(a, b, c[1..]);
      }
    }
  }

  /** A subsequence of a duplicate-free sequence is duplicate-free. */
  lemma {:induction false} SubsequenceNoDups<T>(r: seq<T>, s: seq<T>)
    requires IsSubsequence(r, s) && NoDups(s)
    ensures NoDups(r)
    decreases |s|
  {
    if r != [] {
      NoDupsTail(s);
      if r[0] == s[0] && IsSubsequence(r[1..], s[1..]) {
        SubsequenceNoDups(r[1..], s[1..]);
        SubsequenceElements(r[1..], s[1..]);
        forall i, j | 0 <= i < j < |r| ensures r[i] != r[j] {
          assert r[j] == r[1..][j - 1];
          if i > 0 {
            assert r[i] == r[1..][i - 1];
          }
        }
      } else {
        SubsequenceNoDups(r, s[1..]);
      }
    }
  }

  /** The elements of a subsequence are elements of the sequence. */
  lemma {:induction false} SubsequenceElements<T>(r: seq<T>, s: seq<T>)
    requires IsSubsequence(r, s)
    ensures forall i :: 0 <= i < |r| ==> r[i] in s
    decreases |s|
  {
    if r != [] {
      if r[0] == s[0] && IsSubsequence(r[1..], s[1..]) {
        SubsequenceElements(r[1..], s[1..]);
        forall i | 0 <= i < |r| ensures r[i] in s {
          if i > 0 {
            assert r[i] == r[1..][i - 1];
            assert r[1..][i - 1] in s[1..];
          }
        }
      } else {
        SubsequenceElements(r, s[1..]);
      }
    }
  }

  /** A prefix of a subsequence of `s` is a subsequence of `s` holding only elements of `m`. */
  lemma HeadOfSubsequence<T>(r: seq<T>, m: seq<T>, s: seq<T>)
    requires IsSubsequence(m, s) && |r| <= |m| && r == m[..|r|]
    ensures IsSubsequence(r, s)
    ensures forall x :: x in r ==> x in m
    ensures NoDups(s) ==> NoDups(r)
  {
    PrefixIsSubsequence(m, |r|);
    SubsequenceTrans(r, m, s);
    if NoDups(s) {
      SubsequenceNoDups(r, s);
    }
  }

  /** No element occurs twice exactly when every multiplicity is at most one. */
  lemma {:induction false} NoDupsMultiset<T>(s: seq<T>)
    ensures NoDups(s) <==> forall x :: multiset(s)[x] <= 1
    decreases |s|
  {
    if NoDups(s) {
      if s != [] {
        NoDupsTail(s);
        NoDupsMultiset(s[1..]);
        assert s == [s[0]] + s[1..];
      }
    } else {
      var i, j :| 0 <= i < j < |s| && s[i] == s[j];
      assert s == s[..j] + s[j..];
      assert s[i] in s[..j] && s[j] in s[j..];
      assert multiset(s)[s[i]] == multiset(s[..j])[s[i]] + multiset(s[j..])[s[i]];
    }
  }

  /** Elements with the same multiplicities as a duplicate-free sequence are duplicate-free. */
  lemma NoDupsByMultiset<T>(r: seq<T>, s: seq<T>)
    requires NoDups(s) && forall x :: multiset(r)[x] <= multiset(s)[x]
    ensures NoDups(r)
  {
    NoDupsMultiset(s);
    NoDupsMultiset(r);
  }

  /** A prefix of a duplicate-free sequence is duplicate-free. */
  lemma PrefixNoDups<T>(s: seq<T>, k: nat)
    requires NoDups(s) && k <= |s|
    ensures NoDups(s[..k])
  {
    forall i, j | 0 <= i < j < k ensures s[..k][i] != s[..k][j] {
      assert s[..k][i] == s[i] && s[..k][j] == s[j];
    }
  }

  /**
   * The elements of `s` that satisfy `p`, in their order in `s`: the model of
   * `(x for x in s if p(x))`.
   */
  function Filter<T(!new)>(s: seq<T>, p: T -> bool): (r: seq<T>)
    ensures forall x :: x in r <==> x in s && p(x)
    ensures forall x :: multiset(r)[x] == if p(x) then multiset(s)[x] else 0
    ensures IsSubsequence(r, s)
    ensures |r| <= |s|
    decreases |s|
  {
    if s == [] then []
    else
      var rest := Filter(s[1..], p);
      assert s == [s[0]] + s[1..];
      if p(s[0]) then
        assert ([s[0]] + rest)[1..] == rest;
        [s[0]] + rest
      else rest
  }

  /** Concatenation is associative. */
  lemma AppendAssoc<T>(a: seq<T>, b: seq<T>, c: seq<T>)
    ensures a + (b + c) == (a + b) + c
  {
  }

  /** Filtering by a stronger predicate keeps a subsequence of what the weaker one keeps. */
  lemma {:induction false} FilterNarrows<T(!new)>(s: seq<T>, p: T -> bool, q: T -> bool)
    requires forall x :: q(x) ==> p(x)
    ensures IsSubsequence(Filter(s, q), Filter(s, p))
    decreases |s|
  {
    if s != [] {
      FilterNarrows(s[1..], p, q);
      var rp, rq := Filter(s[1..], p), Filter(s[1..], q);
      if q(s[0]) {
        assert ([s[0]] + rq)[1..] == rq && ([s[0]] + rp)[1..] == rp;
      } else if p(s[0]) {
        assert ([s[0]] + rp)[1..] == rp;
      }
    }
  }

  /**
   * The elements of `s` not in `seen`, each kept at its first occurrence: the
   * key order of a `dict` built by inserting the elements of `s` into a dict
   * that already holds the keys `seen`.
   */
  function DedupAfter<T(!new)>(s: seq<T>, seen: set<T>): (r: seq<T>)
    ensures NoDups(r)
    ensures forall x :: x in r <==> x in s && x !in seen
    ensures IsSubsequence(r, s)
    decreases |s|
  {
    if s == [] then []
    else if s[0] in seen then DedupAfter(s[1..], seen)
    else
      var rest := DedupAfter(s[1..], seen + {s[0]});
      assert ([s[0]] + rest)[1..] == rest;
      [s[0]] + rest
  }

  /**
   * De-duplicating a concatenation de-duplicates the first part, then the
   * second against everything the first part has seen: a `dict` filled from
   * `a + b` is the one filled from `a`, then from `b`.
   */
  lemma {:induction false} DedupAfterConcat<T(!new)>(a: seq<T>, b: seq<T>, seen: set<T>)
    ensures DedupAfter(a + b, seen) == DedupAfter(a, seen) + DedupAfter(b, seen + Elements(a))
    decreases |a|
  {
    if a == [] {
      assert a + b == b;
      assert seen + Elements(a) == seen;
    } else {
      var t := a[1..];
      assert (a + b)[0] == a[0] && (a + b)[1..] == t + b;
      assert Elements(a) == {a[0]} + Elements(t) by {
        assert a == [a[0]] + t;
      }
      if a[0] in seen {
        DedupAfterConcat(t, b, seen);
        assert seen + Elements(a) == seen + Elements(t);
      } else {
        var seen' := seen + {a[0]};
        DedupAfterConcat(t, b, seen');
        assert seen' + Elements(t) == seen + Elements(a);
        AppendAssoc([a[0]], DedupAfter(t, seen'), DedupAfter(b, seen' + Elements(t)));
      }
    }
  }

  /**
   * First-occurrence order: the de-duplication of every prefix of `s` is a
   * prefix of the de-duplication of `s`, so each element is placed where it
   * first occurs.
   */
  lemma DedupAfterPrefix<T(!new)>(s: seq<T>, seen: set<T>, k: nat)
    requires k <= |s|
    ensures var p := DedupAfter(s[..k], seen);
            |p| <= |DedupAfter(s, seen)| && p == DedupAfter(s, seen)[..|p|]
  {
    assert s == s[..k] + s[k..];
    DedupAfterConcat(s[..k], s[k..], seen);
  }

  /** A repeated element keeps its first place: `[1, 2, 1]` becomes `[1, 2]`. */
  lemma DedupExample()
    ensures DedupAfter([1, 2, 1], {}) == [1, 2]
  {
    assert [1, 2, 1][1..] == [2, 1] && [2, 1][1..] == [1] && [1][1..] == [];
  }

  /** First-occurrence de-duplication. */
  function Dedup<T(==,!new)>(s: seq<T>): (r: seq<T>)
  {
    DedupAfter(s, {})
  }

  /**
   * De-duplicating a concatenation whose first part is already free of
   * duplicates keeps that part and appends the new elements of the second:
   * `OrderedDict.fromkeys(chain(a, b))` is `a` followed by what `b` adds.
   */
  lemma NoDupsTail<T>(a: seq<T>)
    requires a != [] && NoDups(a)
    ensures NoDups(a[1..]) && a[0] !in a[1..]
  {
    forall i, j | 0 <= i < j < |a[1..]| ensures a[1..][i] != a[1..][j] {
      assert a[1..][i] == a[i + 1] && a[1..][j] == a[j + 1];
    }
  }

  lemma {:induction false} DedupAfterAppend<T(!new)>(a: seq<T>, b: seq<T>, seen: set<T>)
    requires NoDups(a)
    requires forall x :: x in a ==> x !in seen
    ensures DedupAfter(a + b, seen) == a + DedupAfter(b, seen + Elements(a))
    decreases |a|, 1
  {
    if a == [] {
      assert a + b == b;
      assert seen + Elements(a) == seen;
    } else {
      DedupAfterAppendCons(a, b, seen);
    }
  }

  lemma {:induction false} DedupAfterAppendCons<T(!new)>(a: seq<T>, b: seq<T>, seen: set<T>)
    requires a != [] && NoDups(a)
    requires forall x :: x in a ==> x !in seen
    ensures DedupAfter(a + b, seen) == a + DedupAfter(b, seen + Elements(a))
    decreases |a|, 0
  {
    var tail, seen' := a[1..], seen + {a[0]};
    NoDupsTail(a);
    DedupAfterAppend(tail, b, seen');
    var d := DedupAfter(b, seen + Elements(a));
    assert seen' + Elements(tail) == seen + Elements(a) by {
      assert a == [a[0]] + tail;
    }
    ConsAppend(a, b, d);
  }

  lemma ConsAppend<T>(a: seq<T>, b: seq<T>, d: seq<T>)
    requires a != []
    ensures (a + b)[0] == a[0] && (a + b)[1..] == a[1..] + b
    ensures [a[0]] + (a[1..] + d) == a + d
  {
    assert a == [a[0]] + a[1..];
  }

  /** A sequence without duplicates is its own de-duplication. */
  lemma DedupOfNoDups<T(!new)>(a: seq<T>)
    requires NoDups(a)
    ensures Dedup(a) == a
  {
    DedupAfterAppend(a, [], {});
    assert a + [] == a;
  }

  /** Non-increasing in `key`, pairwise. */
  ghost predicate SortedDesc<T>(r: seq<T>, key: T -> real)
  {
    forall i, j :: 0 <= i < j < |r| ==> key(r[i]) >= key(r[j])
  }

  /** Inserts `x` before the first element whose key is at most `key(x)`. */
  function Insert<T>(x: T, r: seq<T>, key: T -> real): (r': seq<T>)
    ensures multiset(r') == multiset(r) + multiset{x}
    decreases |r|
  {
    if r == [] || key(x) >= key(r[0]) then [x] + r
    else
      assert r == [r[0]] + r[1..];
      [r[0]] + Insert(x, r[1..], key)
  }

  lemma {:induction false} InsertSorted<T>(x: T, r: seq<T>, key: T -> real)
    requires SortedDesc(r, key)
    ensures SortedDesc(Insert(x, r, key), key)
    decreases |r|
  {
    if r == [] || key(x) >= key(r[0]) {
      ConsSorted(x, r, key);
    } else {
      InsertSorted(x, r[1..], key);
      InsertBounded(x, r[1..], key, key(r[0]));
      ConsSorted(r[0], Insert(x, r[1..], key), key);
    }
  }

  /** Inserting keeps every key at most `b` when `x` and all of `r` have keys at most `b`. */
  lemma InsertBounded<T>(x: T, r: seq<T>, key: T -> real, b: real)
    requires key(x) <= b
    requires forall i :: 0 <= i < |r| ==> key(r[i]) <= b
    ensures forall i :: 0 <= i < |Insert(x, r, key)| ==> key(Insert(x, r, key)[i]) <= b
  {
    var r' := Insert(x, r, key);
    forall i | 0 <= i < |r'| ensures key(r'[i]) <= b {
      assert r'[i] in multiset(r');
      if r'[i] != x {
        assert r'[i] in multiset(r);
        var k :| 0 <= k < |r| && r[k] == r'[i];
      }
    }
  }

  /** A head whose key bounds a sorted tail gives a sorted sequence. */
  lemma ConsSorted<T>(h: T, r: seq<T>, key: T -> real)
    requires SortedDesc(r, key)
    requires r == [] || key(h) >= key(r[0])
    ensures SortedDesc([h] + r, key)
  {
    var r' := [h] + r;
    forall i, j | 0 <= i < j < |r'| ensures key(r'[i]) >= key(r'[j]) {
      assert r'[j] == r[j - 1];
      if i > 0 {
        assert r'[i] == r[i - 1];
      }
    }
  }

  /**
   * Stable sort by descending key: the model of
   * `sorted(s, key=key, reverse=True)`, an insertion sort whose each step puts
   * the earlier element in front of the equal ones.
   */
  function SortDesc<T>(s: seq<T>, key: T -> real): (r: seq<T>)
    ensures multiset(r) == multiset(s)
    ensures SortedDesc(r, key)
    decreases |s|
  {
    if s == [] then []
    else
      assert s == [s[0]] + s[1..];
      InsertSorted(s[0], SortDesc(s[1..], key), key);
      Insert(s[0], SortDesc(s[1..], key), key)
  }

  /** The predicate "has key `v`". */
  function KeyIs<T>(key: T -> real, v: real): T -> bool
  {
    x => key(x) == v
  }

  lemma {:induction false} FilterInsert<T(!new)>(x: T, r: seq<T>, key: T -> real, v: real)
    ensures Filter(Insert(x, r, key), KeyIs(key, v)) == Filter([x] + r, KeyIs(key, v))
    decreases |r|
  {
    var q := KeyIs(key, v);
    if r == [] || key(x) >= key(r[0]) {
    } else {
      FilterInsert(x, r[1..], key, v);
      var rest := Insert(x, r[1..], key);
      assert ([r[0]] + rest)[1..] == rest;
      assert ([x] + r[1..])[1..] == r[1..];
      assert ([x] + r)[1..] == r;
      assert ([x] + r)[1..][1..] == r[1..];
    }
  }

  /**
   * Stability: for every key value, the elements with that key appear in the
   * sorted sequence in exactly the order they have in the input.
   */
  lemma {:induction false} SortDescStable<T(!new)>(s: seq<T>, key: T -> real, v: real)
    ensures Filter(SortDesc(s, key), KeyIs(key, v)) == Filter(s, KeyIs(key, v))
    decreases |s|
  {
    if s != [] {
      var sorted := SortDesc(s[1..], key);
      FilterInsert(s[0], sorted, key, v);
      SortDescStable(s[1..], key, v);
      assert ([s[0]] + sorted)[1..] == sorted;
    }
  }
}
