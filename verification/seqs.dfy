/** In-order filtering and subsequences: the shape of every list
    comprehension `[x for x in xs if p(x)]` in the analyzer and extractors. */
module Seqs {

  /** `[x for x in s if p(x)]`. */
  function Filter<T>(p: T -> bool, s: seq<T>): (r: seq<T>)
    ensures |r| <= |s|
    ensures forall i :: 0 <= i < |r| ==> p(r[i]) && r[i] in s
  {
    if s == [] then []
    else (if p(s[0]) then [s[0]] else []) + Filter(p, s[1..])
  }

  /** `a` can be obtained from `b` by deleting elements. */
  predicate IsSubseq<T(==)>(a: seq<T>, b: seq<T>)
    decreases |b|
  {
    if a == [] then true
    else if b == [] then false
    else if a[0] == b[0] then IsSubseq(a[1..], b[1..])
    else IsSubseq(a, b[1..])
  }

  lemma {:induction false} FilterAppend<T>(p: T -> bool, a: seq<T>, b: seq<T>)
    ensures Filter(p, a + b) == Filter(p, a) + Filter(p, b)
    decreases |a|
  {
    if a != [] {
      assert (a + b)[0] == a[0] && (a + b)[1..] == a[1..] + b;
      FilterAppend(p, a[1..], b);
      assert Filter(p, a + b) == (if p(a[0]) then [a[0]] else []) + Filter(p, a[1..] + b);
    } else {
      assert a + b == b;
    }
  }

  /** The filter keeps every occurrence of every accepted value and nothing else. */
  lemma {:induction false} FilterCounts<T>(p: T -> bool, s: seq<T>)
    ensures forall x :: multiset(Filter(p, s))[x] == if p(x) then multiset(s)[x] else 0
  {
    if s != [] {
      FilterCounts(p, s[1..]);
      assert s == [s[0]] + s[1..];
      assert multiset(s) == multiset{s[0]} + multiset(s[1..]);
    }
  }

  /** The filter keeps the original order. */
  lemma {:induction false} FilterIsSubseq<T>(p: T -> bool, s: seq<T>)
    ensures IsSubseq(Filter(p, s), s)
  {
    if s != [] {
      FilterIsSubseq(p, s[1..]);
      if p(s[0]) {
        assert Filter(p, s)[1..] == Filter(p, s[1..]);
      } else {
        assert Filter(p, s) == Filter(p, s[1..]);
      }
    }
  }

  /** Nothing is removed when every element is accepted. */
  lemma {:induction false} FilterKeepsAll<T>(p: T -> bool, s: seq<T>)
    requires forall i :: 0 <= i < |s| ==> p(s[i])
    ensures Filter(p, s) == s
  {
    if s != [] {
      FilterKeepsAll(p, s[1..]);
    }
  }

  /** Everything is removed when no element is accepted. */
  lemma {:induction false} FilterKeepsNone<T>(p: T -> bool, s: seq<T>)
    requires forall i :: 0 <= i < |s| ==> !p(s[i])
    ensures Filter(p, s) == []
  {
    if s != [] {
      FilterKeepsNone(p, s[1..]);
    }
  }

  /** Filtering by a stronger condition after a weaker one is the same as
      filtering by the stronger one alone; with `p == q` this is idempotence. */
  lemma {:induction false} FilterOfFilter<T>(p: T -> bool, q: T -> bool, s: seq<T>)
    requires forall x :: p(x) ==> q(x)
    ensures Filter(p, Filter(q, s)) == Filter(p, s)
  {
    if s != [] {
      FilterOfFilter(p, q, s[1..]);
      if q(s[0]) {
        assert Filter(q, s) == [s[0]] + Filter(q, s[1..]);
        FilterAppend(p, [s[0]], Filter(q, s[1..]));
        assert Filter(p, [s[0]]) == (if p(s[0]) then [s[0]] else []) + Filter(p, []);
      } else {
        assert Filter(q, s) == Filter(q, s[1..]);
      }
    }
  }

  lemma FilterIdempotent<T>(p: T -> bool, s: seq<T>)
    ensures Filter(p, Filter(p, s)) == Filter(p, s)
  {
    FilterOfFilter(p, p, s);
  }

  /** How many elements of `s` a filter accepts depends only on the multiset of
      `s`, never on its order. */
  lemma FilterLengthPermutation<T>(p: T -> bool, a: seq<T>, b: seq<T>)
    requires multiset(a) == multiset(b)
    ensures |Filter(p, a)| == |Filter(p, b)|
  {
    var fa, fb := Filter(p, a), Filter(p, b);
    FilterCounts(p, a);
    FilterCounts(p, b);
    MultisetExt(multiset(fa), multiset(fb));
    assert |multiset(fa)| == |fa| && |multiset(fb)| == |fb|;
  }

  lemma MultisetExt<T>(ma: multiset<T>, mb: multiset<T>)
    requires forall x :: ma[x] == mb[x]
    ensures ma == mb
  {
  }

  lemma {:induction false} SubseqAppend<T>(a: seq<T>, b: seq<T>, c: seq<T>, d: seq<T>)
    requires IsSubseq(a, b) && IsSubseq(c, d)
    ensures IsSubseq(a + c, b + d)
    decreases |b|
  {
    if a == [] {
      assert a + c == c;
      SubseqOfSuffix(c, b, d);
    } else {
      assert (a + c)[0] == a[0];
      assert (b + d)[1..] == b[1..] + d;
      if a[0] == b[0] {
        assert (a + c)[1..] == a[1..] + c;
        SubseqAppend(a[1..], b[1..], c, d);
      } else {
        SubseqAppend(a, b[1..], c, d);
      }
    }
  }

  lemma {:induction false} SubseqOfSuffix<T>(c: seq<T>, b: seq<T>, d: seq<T>)
    requires IsSubseq(c, d)
    ensures IsSubseq(c, b + d)
    decreases |b|
  {
    if b != [] && c != [] {
      assert (b + d)[1..] == b[1..] + d;
      SubseqOfSuffix(c, b[1..], d);
      if c[0] == b[0] {
        SubseqDropFirst(c, b + d);
      }
    } else if b != [] {
      assert c == [];
    } else {
      assert b + d == d;
    }
  }

  /** A subsequence of the tail is a subsequence of the whole. */
  lemma {:induction false} SubseqDropFirst<T>(c: seq<T>, s: seq<T>)
    requires s != [] && IsSubseq(c, s[1..])
    ensures IsSubseq(c, s)
    decreases |s|
  {
    if c != [] && c[0] == s[0] {
      SubseqTail(c, s[1..]);
      SubseqDropFirst(c[1..], s[1..]);
    }
  }

  /** Dropping the first element of a subsequence keeps it a subsequence. */
  lemma {:induction false} SubseqTail<T>(c: seq<T>, s: seq<T>)
    requires c != [] && IsSubseq(c, s)
    ensures IsSubseq(c[1..], s[1..])
    decreases |s|
  {
    if c[0] != s[0] {
      if c[1..] != [] {
        SubseqTail(c, s[1..]);
        SubseqDropFirst(c[1..], s[1..]);
      }
    }
  }
}
