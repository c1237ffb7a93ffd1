/** Order-preserving filtering of sequences, the one list operation every
    part of the back end is built from: a Python list comprehension
    `[x for x in s if keep(x)]`, or a loop that appends the elements it keeps. */
module Seqs {

  /** The elements of `s` that `keep` accepts, in their original order. */
  function Filter<T>(s: seq<T>, keep: T -> bool): seq<T>
    decreases |s|
  {
    if |s| == 0 then []
    else Filter(s[..|s| - 1], keep) + (if keep(s[|s| - 1]) then [s[|s| - 1]] else [])
  }

  /** `a` can be obtained from `b` by deleting elements. */
  predicate IsSubseq<T(==)>(a: seq<T>, b: seq<T>)
    decreases |b|
  {
    || |a| == 0
    || (&& |b| > 0
        && (|| (a[|a| - 1] == b[|b| - 1] && IsSubseq(a[..|a| - 1], b[..|b| - 1]))
            || IsSubseq(a, b[..|b| - 1])))
  }

  /** No element occurs twice. */
  predicate NoDup<T(==)>(s: seq<T>)
  {
    forall i, j :: 0 <= i < j < |s| ==> s[i] != s[j]
  }

  /** One loop step: filtering a longer prefix appends at most the new element. */
  lemma FilterSnoc<T>(s: seq<T>, x: T, keep: T -> bool)
    ensures Filter(s + [x], keep) == Filter(s, keep) + (if keep(x) then [x] else [])
  {
    assert (s + [x])[..|s + [x]| - 1] == s;
  }

  /** The filter keeps every copy of a kept element and no copy of a
      dropped one. */
  lemma {:induction false} FilterCount<T>(s: seq<T>, keep: T -> bool, x: T)
    ensures multiset(Filter(s, keep))[x] == if keep(x) then multiset(s)[x] else 0
    decreases |s|
  {
    if |s| > 0 {
      var init := s[..|s| - 1];
      FilterCount(init, keep, x);
      assert s == init + [s[|s| - 1]];
    }
  }

  /** An element survives the filter exactly when it was there and is kept. */
  lemma {:induction false} FilterMember<T>(s: seq<T>, keep: T -> bool, x: T)
    ensures x in Filter(s, keep) <==> x in s && keep(x)
    decreases |s|
  {
    if |s| > 0 {
      var init := s[..|s| - 1];
      assert s == init + [s[|s| - 1]];
      FilterMember(init, keep, x);
    }
  }

  /** Every element of the filtered sequence is kept. */
  lemma FilterAllKept<T>(s: seq<T>, keep: T -> bool)
    ensures forall x :: x in Filter(s, keep) ==> keep(x)
  {
    forall x | x in Filter(s, keep)
      ensures keep(x)
    {
      FilterMember(s, keep, x);
    }
  }

  /** Filtering never lengthens a sequence. */
  lemma {:induction false} FilterShorter<T>(s: seq<T>, keep: T -> bool)
    ensures |Filter(s, keep)| <= |s|
    decreases |s|
  {
    if |s| > 0 {
      FilterShorter(s[..|s| - 1], keep);
    }
  }

  /** When every element is kept, the filter is the identity. */
  lemma {:induction false} FilterKeepsAll<T>(s: seq<T>, keep: T -> bool)
    requires forall i :: 0 <= i < |s| ==> keep(s[i])
    ensures Filter(s, keep) == s
    decreases |s|
  {
    if |s| > 0 {
      var init := s[..|s| - 1];
      FilterKeepsAll(init, keep);
      assert s == init + [s[|s| - 1]];
    }
  }

  /** When no element is kept, the filter is empty. */
  lemma {:induction false} FilterKeepsNone<T>(s: seq<T>, keep: T -> bool)
    requires forall i :: 0 <= i < |s| ==> !keep(s[i])
    ensures Filter(s, keep) == []
    decreases |s|
  {
    if |s| > 0 {
      FilterKeepsNone(s[..|s| - 1], keep);
    }
  }

  /** Filtering distributes over concatenation. */
  lemma {:induction false} FilterAppend<T>(a: seq<T>, b: seq<T>, keep: T -> bool)
    ensures Filter(a + b, keep) == Filter(a, keep) + Filter(b, keep)
    decreases |b|
  {
    if |b| == 0 {
      assert a + b == a;
    } else {
      var init := b[..|b| - 1];
      var last := b[|b| - 1];
      assert a + b == (a + init) + [last];
      assert b == init + [last];
      FilterSnoc(a + init, last, keep);
      FilterSnoc(init, last, keep);
      FilterAppend(a, init, keep);
    }
  }

  /** Two predicates that agree on the elements give the same filter. */
  lemma {:induction false} FilterCongruent<T>(s: seq<T>, f: T -> bool, g: T -> bool)
    requires forall i :: 0 <= i < |s| ==> f(s[i]) == g(s[i])
    ensures Filter(s, f) == Filter(s, g)
    decreases |s|
  {
    if |s| > 0 {
      FilterCongruent(s[..|s| - 1], f, g);
    }
  }

  /** Filtering twice is filtering once by the conjunction. */
  lemma {:induction false} FilterFilter<T>(s: seq<T>, f: T -> bool, g: T -> bool, both: T -> bool)
    requires forall i :: 0 <= i < |s| ==> both(s[i]) == (f(s[i]) && g(s[i]))
    ensures Filter(Filter(s, f), g) == Filter(s, both)
    decreases |s|
  {
    if |s| > 0 {
      var init := s[..|s| - 1];
      var last := s[|s| - 1];
      FilterFilter(init, f, g, both);
      assert Filter(s, f) == Filter(init, f) + (if f(last) then [last] else []);
      assert Filter(s, both) == Filter(init, both) + (if both(last) then [last] else []);
      assert both(last) == (f(last) && g(last));
      if f(last) {
        FilterSnoc(Filter(init, f), last, g);
      } else {
        assert Filter(s, f) == Filter(init, f);
      }
    }
  }

  /** Appending the same element to both sides keeps the subsequence relation. */
  lemma IsSubseqSnoc<T>(a: seq<T>, b: seq<T>, x: T)
    requires IsSubseq(a, b)
    ensures IsSubseq(a + [x], b + [x])
  {
    assert (a + [x])[..|a + [x]| - 1] == a;
    assert (b + [x])[..|b + [x]| - 1] == b;
  }

  /** Appending to the longer side keeps the subsequence relation. */
  lemma IsSubseqExtend<T>(a: seq<T>, b: seq<T>, x: T)
    requires IsSubseq(a, b)
    ensures IsSubseq(a, b + [x])
  {
    assert (b + [x])[..|b + [x]| - 1] == b;
  }

  /** The result of a filter is an order-preserving subsequence of its input. */
  lemma {:induction false} FilterIsSubseq<T>(s: seq<T>, keep: T -> bool)
    ensures IsSubseq(Filter(s, keep), s)
    decreases |s|
  {
    if |s| > 0 {
      var init := s[..|s| - 1];
      var last := s[|s| - 1];
      FilterIsSubseq(init, keep);
      assert s == init + [last];
      assert Filter(s, keep) == Filter(init, keep) + (if keep(last) then [last] else []);
      if keep(last) {
        IsSubseqSnoc(Filter(init, keep), init, last);
      } else {
        IsSubseqExtend(Filter(init, keep), init, last);
        assert Filter(s, keep) == Filter(init, keep);
        assert IsSubseq(Filter(init, keep), init + [last]);
      }
    } else {
      assert Filter(s, keep) == [];
    }
  }

  /** A filter of a duplicate-free sequence is duplicate-free. */
  lemma {:induction false} FilterNoDup<T>(s: seq<T>, keep: T -> bool)
    requires NoDup(s)
    ensures NoDup(Filter(s, keep))
    decreases |s|
  {
    if |s| > 0 {
      var init := s[..|s| - 1];
      var last := s[|s| - 1];
      assert NoDup(init);
      FilterNoDup(init, keep);
      if keep(last) {
        FilterMember(init, keep, last);
        assert last !in init;
      }
    }
  }

  /** In a duplicate-free sequence every element occurs at most once. */
  lemma {:induction false} NoDupCount<T>(s: seq<T>, x: T)
    requires NoDup(s)
    ensures multiset(s)[x] <= 1
    decreases |s|
  {
    if |s| > 0 {
      var init := s[..|s| - 1];
      assert s == init + [s[|s| - 1]];
      assert NoDup(init);
      NoDupCount(init, x);
      if s[|s| - 1] == x {
        assert x !in init;
      }
    }
  }

  /** Drawing without replacement from a duplicate-free sequence gives no repeats. */
  lemma SubMultisetNoDup<T>(b: seq<T>, pool: seq<T>)
    requires multiset(b) <= multiset(pool)
    requires NoDup(pool)
    ensures NoDup(b)
  {
    forall i, j | 0 <= i < j < |b|
      ensures b[i] != b[j]
    {
      if b[i] == b[j] {
        var x := b[i];
        assert b == b[..j] + [b[j]] + b[j + 1..];
        assert x in b[..j];
        assert multiset(b)[x] >= 2;
        NoDupCount(pool, x);
        assert false;
      }
    }
  }

  /** Every element of a sub-multiset sequence belongs to the larger sequence. */
  lemma SubMultisetMember<T>(b: seq<T>, pool: seq<T>, x: T)
    requires multiset(b) <= multiset(pool)
    requires x in b
    ensures x in pool
  {
    assert x in multiset(b);
  }

  /** A sub-multiset of the same length is the same multiset. */
  lemma SubMultisetSameSize<T>(b: seq<T>, pool: seq<T>)
    requires multiset(b) <= multiset(pool)
    requires |b| == |pool|
    ensures multiset(b) == multiset(pool)
  {
    var rest := multiset(pool) - multiset(b);
    assert multiset(pool) == multiset(b) + rest;
    assert |rest| == 0;
  }
}
