/** Generic sequence operations that the pages use through `Array.prototype.filter` and `map`. */
module Seqs {

  /** `s.filter(p)`: the elements of `s` that satisfy `p`, in their original order. */
  function Filter<T>(s: seq<T>, p: T -> bool): (r: seq<T>)
    ensures |r| <= |s|
    ensures forall i :: 0 <= i < |r| ==> p(r[i]) && r[i] in s
    ensures forall i :: 0 <= i < |s| && p(s[i]) ==> s[i] in r
  {
    if s == [] then []
    else if p(s[0]) then [s[0]] + Filter(s[1..], p)
    else Filter(s[1..], p)
  }

  /** `s.map(f)`: element `i` of the result is `f` applied to element `i` of `s`. */
  function Map<T, U>(s: seq<T>, f: T -> U): (r: seq<U>)
    ensures |r| == |s|
    ensures forall i :: 0 <= i < |s| ==> r[i] == f(s[i])
  {
    if s == [] then [] else [f(s[0])] + Map(s[1..], f)
  }

  /** `a` is obtained from `b` by deleting some elements, keeping the order of the rest. */
  predicate IsSubsequence<T(==)>(a: seq<T>, b: seq<T>)
    decreases |b|
  {
    if a == [] then true
    else if b == [] then false
    else if a[0] == b[0] then IsSubsequence(a[1..], b[1..])
    else IsSubsequence(a, b[1..])
  }

  /** Number of elements of `s` that satisfy `p`. */
  function CountWhere<T>(s: seq<T>, p: T -> bool): nat
  {
    if s == [] then 0 else (if p(s[0]) then 1 else 0) + CountWhere(s[1..], p)
  }

  lemma {:induction false} FilterIsSubsequence<T>(s: seq<T>, p: T -> bool)
    ensures IsSubsequence(Filter(s, p), s)
  {
    if s != [] {
      FilterIsSubsequence(s[1..], p);
      if !p(s[0]) {
        SubsequenceOfTail(Filter(s[1..], p), s);
      }
    }
  }

  /** A subsequence of the tail of `b` is a subsequence of `b`. */
  lemma {:induction false} SubsequenceOfTail<T>(a: seq<T>, b: seq<T>)
    requires b != [] && IsSubsequence(a, b[1..])
    ensures IsSubsequence(a, b)
    decreases |b|, 0
  {
    if a != [] && a[0] != b[0] {
      // IsSubsequence(a, b) unfolds to IsSubsequence(a, b[1..]), which is given
    } else if a != [] {
      // a[0] == b[0]: IsSubsequence(a, b[1..]) implies IsSubsequence(a[1..], b[1..])
      SubsequenceDropHead(a, b[1..]);
    }
  }

  /** Dropping the first element of a subsequence keeps it a subsequence. */
  lemma {:induction false} SubsequenceDropHead<T>(a: seq<T>, b: seq<T>)
    requires a != [] && IsSubsequence(a, b)
    ensures IsSubsequence(a[1..], b)
    decreases |b|, 1
  {
    if a[0] == b[0] {
      if a[1..] != [] {
        SubsequenceOfTail(a[1..], b);
      }
    } else {
      SubsequenceDropHead(a, b[1..]);
      if a[1..] != [] {
        SubsequenceOfTail(a[1..], b);
      }
    }
  }

  /** The filter keeps every element when all satisfy the predicate. */
  lemma {:induction false} FilterAll<T>(s: seq<T>, p: T -> bool)
    requires forall i :: 0 <= i < |s| ==> p(s[i])
    ensures Filter(s, p) == s
  {
    if s != [] {
      FilterAll(s[1..], p);
    }
  }

  /** Filtering distributes over concatenation. */
  lemma {:induction false} FilterConcat<T>(a: seq<T>, b: seq<T>, p: T -> bool)
    ensures Filter(a + b, p) == Filter(a, p) + Filter(b, p)
  {
    if a == [] {
      assert a + b == b;
    } else {
      assert (a + b)[1..] == a[1..] + b;
      FilterConcat(a[1..], b, p);
    }
  }

  /** The kept and the dropped elements together are the whole sequence, counted with multiplicity. */
  lemma {:induction false} FilterSplitsMultiset<T>(s: seq<T>, p: T -> bool, notP: T -> bool)
    requires forall i :: 0 <= i < |s| ==> notP(s[i]) == !p(s[i])
    ensures multiset(Filter(s, p)) + multiset(Filter(s, notP)) == multiset(s)
    ensures |Filter(s, p)| == CountWhere(s, p)
  {
    if s != [] {
      FilterSplitsMultiset(s[1..], p, notP);
      assert s == [s[0]] + s[1..];
    }
  }

  /** Concatenation is associative. */
  lemma ConcatAssoc<T>(a: seq<T>, b: seq<T>, c: seq<T>)
    ensures a + (b + c) == a + b + c
  {
  }

  /** A slice is the part before a position, the element there, and the part after. */
  lemma SliceAround<T>(s: seq<T>, lo: int, mid: int, hi: int)
    requires 0 <= lo <= mid < hi <= |s|
    ensures s[lo..hi] == s[lo..mid] + [s[mid]] + s[mid + 1..hi]
  {
  }

  /** Where the elements of a head and three pieces end up once they are put one after the other. */
  lemma ConcatFour<T>(h: T, a: seq<T>, b: seq<T>, c: seq<T>)
    ensures var t := [h] + a + b + c;
      && |t| == 1 + |a| + |b| + |c| && t[0] == h
      && (forall i :: 1 <= i < 1 + |a| ==> t[i] == a[i - 1])
      && (forall i :: 1 + |a| <= i < 1 + |a| + |b| ==> t[i] == b[i - (1 + |a|)])
      && (forall i :: 1 + |a| + |b| <= i < |t| ==> t[i] == c[i - (1 + |a| + |b|)])
  {
  }

  /** A head and three mapped pieces put one after the other: where each piece's images end up. */
  lemma MappedFour<T, U>(h: U, a: seq<T>, b: seq<T>, c: seq<T>, f: T -> U, g: T -> U, k: T -> U)
    ensures var t := [h] + Map(a, f) + Map(b, g) + Map(c, k);
      && |t| == 1 + |a| + |b| + |c| && t[0] == h
      && (forall i :: 1 <= i < 1 + |a| ==> t[i] == f(a[i - 1]))
      && (forall i :: 1 + |a| <= i < 1 + |a| + |b| ==> t[i] == g(b[i - (1 + |a|)]))
      && (forall i :: 1 + |a| + |b| <= i < |t| ==> t[i] == k(c[i - (1 + |a| + |b|)]))
  {
    var ma, mb, mc := Map(a, f), Map(b, g), Map(c, k);
    var t := [h] + ma + mb + mc;
    ConcatFour(h, ma, mb, mc);
    forall i | 1 <= i < 1 + |a| ensures t[i] == f(a[i - 1]) {
      assert t[i] == ma[i - 1];
    }
    forall i | 1 + |a| <= i < 1 + |a| + |b| ensures t[i] == g(b[i - (1 + |a|)]) {
      var j := i - (1 + |a|);
      assert t[i] == mb[j];
    }
    forall i | 1 + |a| + |b| <= i < |t| ensures t[i] == k(c[i - (1 + |a| + |b|)]) {
      var j := i - (1 + |a| + |b|);
      assert t[i] == mc[j];
    }
  }
}
