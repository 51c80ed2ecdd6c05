/**
 * `Array.prototype.sort(cmp)`, which the language requires to be stable. With a consistent
 * comparator there is exactly one stable sorted permutation, so any stable sort may stand for
 * the engine's; here it is insertion sort, where an element goes in front of the first
 * element that does not sort strictly before it.
 */
module Sorting {
  import Seqs

  /** Insert `x` in front of the first element `y` of `s` with `cmp(x, y) <= 0`. */
  function Insert<T>(x: T, s: seq<T>, cmp: (T, T) -> int): (r: seq<T>)
    ensures |r| == |s| + 1
    ensures multiset(r) == multiset(s) + multiset{x}
  {
    if s == [] then [x]
    else if cmp(x, s[0]) <= 0 then [x] + s
    else
      assert s == [s[0]] + s[1..];
      [s[0]] + Insert(x, s[1..], cmp)
  }

  /** `s.sort(cmp)` on a copy of `s`. */
  function Sort<T>(s: seq<T>, cmp: (T, T) -> int): (r: seq<T>)
    ensures |r| == |s|
    ensures multiset(r) == multiset(s)
  {
    if s == [] then []
    else
      assert s == [s[0]] + s[1..];
      Insert(s[0], Sort(s[1..], cmp), cmp)
  }

  /** `cmp` is a consistent comparator on the elements of `s`: its sign flips with the arguments and `<= 0` is transitive. */
  ghost predicate ConsistentOn<T>(cmp: (T, T) -> int, s: seq<T>)
  {
    && (forall a, b | a in s && b in s :: cmp(a, b) > 0 <==> cmp(b, a) < 0)
    && (forall a, b, c | a in s && b in s && c in s :: cmp(a, b) <= 0 && cmp(b, c) <= 0 ==> cmp(a, c) <= 0)
  }

  /** No element sorts strictly after a later one. */
  ghost predicate SortedBy<T>(s: seq<T>, cmp: (T, T) -> int)
  {
    forall i, j :: 0 <= i < j < |s| ==> cmp(s[i], s[j]) <= 0
  }

  lemma {:induction false} InsertSorted<T>(x: T, s: seq<T>, cmp: (T, T) -> int)
    requires ConsistentOn(cmp, [x] + s)
    requires SortedBy(s, cmp)
    ensures SortedBy(Insert(x, s, cmp), cmp)
  {
    if s == [] {
    } else if cmp(x, s[0]) > 0 {
      var t := s[1..];
      forall a | a in [x] + t ensures a in [x] + s {
      }
      ConsistentSub(cmp, [x] + t, [x] + s);
      SortedTail(s, cmp);
      InsertSorted(x, t, cmp);
      assert cmp(s[0], x) < 0 by {
        assert x in [x] + s && s[0] in [x] + s;
      }
      InsertBehind(x, s, cmp);
    } else {
      InsertFront(x, s, cmp);
    }
  }

  /** `x` goes in front of a sorted sequence whose first element it does not sort after. */
  lemma InsertFront<T>(x: T, s: seq<T>, cmp: (T, T) -> int)
    requires ConsistentOn(cmp, [x] + s)
    requires SortedBy(s, cmp) && s != [] && cmp(x, s[0]) <= 0
    ensures SortedBy([x] + s, cmp)
  {
    forall j | 0 <= j < |s| ensures cmp(x, s[j]) <= 0 {
      if j > 0 {
        assert cmp(s[0], s[j]) <= 0;
        assert x in [x] + s && s[0] in [x] + s && s[j] in [x] + s;
      }
    }
    ConsSorted(x, s, cmp);
  }

  /** The first element stays in front when `x`, which sorts after it, goes into the rest. */
  lemma InsertBehind<T>(x: T, s: seq<T>, cmp: (T, T) -> int)
    requires SortedBy(s, cmp) && s != [] && cmp(s[0], x) <= 0
    requires SortedBy(Insert(x, s[1..], cmp), cmp)
    ensures SortedBy([s[0]] + Insert(x, s[1..], cmp), cmp)
  {
    var t := s[1..];
    var rest := Insert(x, t, cmp);
    InsertElements(x, t, cmp);
    forall j | 0 <= j < |rest| ensures cmp(s[0], rest[j]) <= 0 {
      assert rest[j] in rest;
      if rest[j] != x {
        var k :| 0 <= k < |t| && t[k] == rest[j];
        assert s[k + 1] == rest[j];
      }
    }
    ConsSorted(s[0], rest, cmp);
  }

  /** A consistent comparator stays consistent on any part of its elements. */
  lemma ConsistentSub<T>(cmp: (T, T) -> int, s: seq<T>, t: seq<T>)
    requires ConsistentOn(cmp, t)
    requires forall a :: a in s ==> a in t
    ensures ConsistentOn(cmp, s)
  {
  }

  /** A sorted sequence stays sorted without its first element. */
  lemma SortedTail<T>(s: seq<T>, cmp: (T, T) -> int)
    requires s != [] && SortedBy(s, cmp)
    ensures SortedBy(s[1..], cmp)
  {
    var t := s[1..];
    forall i, j | 0 <= i < j < |t| ensures cmp(t[i], t[j]) <= 0 {
      assert t[i] == s[i + 1] && t[j] == s[j + 1];
    }
  }

  /** A head that sorts no later than any element of a sorted tail gives a sorted sequence. */
  lemma ConsSorted<T>(h: T, t: seq<T>, cmp: (T, T) -> int)
    requires SortedBy(t, cmp)
    requires forall j :: 0 <= j < |t| ==> cmp(h, t[j]) <= 0
    ensures SortedBy([h] + t, cmp)
  {
    var s := [h] + t;
    forall i, j | 0 <= i < j < |s| ensures cmp(s[i], s[j]) <= 0 {
      assert s[j] == t[j - 1];
      if i > 0 {
        assert s[i] == t[i - 1];
      }
    }
  }

  /** An insertion holds `x` and the elements it was inserted among, and nothing else. */
  lemma InsertElements<T>(x: T, s: seq<T>, cmp: (T, T) -> int)
    ensures forall y :: y in Insert(x, s, cmp) ==> y == x || y in s
  {
    var r := Insert(x, s, cmp);
    forall y | y in r ensures y == x || y in s {
      assert y in multiset(r);
    }
  }

  /** Under a consistent comparator, the result is sorted. */
  lemma {:induction false} SortSorted<T>(s: seq<T>, cmp: (T, T) -> int)
    requires ConsistentOn(cmp, s)
    ensures SortedBy(Sort(s, cmp), cmp)
  {
    if s != [] {
      assert ConsistentOn(cmp, s[1..]) by {
        forall a | a in s[1..] ensures a in s { }
      }
      SortSorted(s[1..], cmp);
      var t := Sort(s[1..], cmp);
      assert ConsistentOn(cmp, [s[0]] + t) by {
        forall a | a in [s[0]] + t ensures a in s {
          if a != s[0] {
            assert a in multiset(t);
          }
        }
      }
      InsertSorted(s[0], t, cmp);
    }
  }

  /** The elements with the same sort key as `e`. */
  function EquivalentTo<T>(s: seq<T>, cmp: (T, T) -> int, e: T): seq<T>
  {
    Seqs.Filter(s, x => cmp(x, e) == 0)
  }

  lemma {:induction false} InsertKeepsEquivalentOrder<T>(x: T, s: seq<T>, cmp: (T, T) -> int, e: T)
    requires ConsistentOn(cmp, [x, e] + s)
    ensures EquivalentTo(Insert(x, s, cmp), cmp, e) == EquivalentTo([x], cmp, e) + EquivalentTo(s, cmp, e)
  {
    if s == [] {
    } else if cmp(x, s[0]) <= 0 {
      EquivalentConcat([x], s, cmp, e);
    } else {
      var t := s[1..];
      forall a | a in [x, e] + t ensures a in [x, e] + s {
      }
      ConsistentSub(cmp, [x, e] + t, [x, e] + s);
      InsertKeepsEquivalentOrder(x, t, cmp, e);
      var rest := Insert(x, t, cmp);
      EquivalentConcat([s[0]], rest, cmp, e);
      EquivalentConcat([s[0]], t, cmp, e);
      assert [s[0]] + t == s;
      assert x in [x, e] + s && e in [x, e] + s && s[0] in [x, e] + s;
      NotBothEquivalent(cmp, [x, e] + s, x, s[0], e);
    }
  }

  /** Of two elements where one sorts strictly after the other, at most one is equivalent to `e`. */
  lemma NotBothEquivalent<T>(cmp: (T, T) -> int, t: seq<T>, x: T, y: T, e: T)
    requires ConsistentOn(cmp, t) && x in t && y in t && e in t
    requires cmp(x, y) > 0
    ensures !(cmp(x, e) == 0 && cmp(y, e) == 0)
  {
    if cmp(y, e) == 0 {
      assert cmp(e, y) == 0;
    }
  }

  /** Stability: elements that compare equal keep their original relative order. */
  lemma {:induction false} SortStable<T>(s: seq<T>, cmp: (T, T) -> int, e: T)
    requires ConsistentOn(cmp, [e] + s)
    ensures EquivalentTo(Sort(s, cmp), cmp, e) == EquivalentTo(s, cmp, e)
  {
    if s != [] {
      var t0 := s[1..];
      forall a | a in [e] + t0 ensures a in [e] + s {
      }
      ConsistentSub(cmp, [e] + t0, [e] + s);
      SortStable(t0, cmp, e);
      SortedConsistent(s, cmp, e);
      InsertKeepsEquivalentOrder(s[0], Sort(t0, cmp), cmp, e);
      EquivalentConcat([s[0]], t0, cmp, e);
      assert [s[0]] + t0 == s;
    }
  }

  /** Sorting the rest keeps the comparator consistent on the first element, `e` and the sorted rest. */
  lemma SortedConsistent<T>(s: seq<T>, cmp: (T, T) -> int, e: T)
    requires s != [] && ConsistentOn(cmp, [e] + s)
    ensures ConsistentOn(cmp, [s[0], e] + Sort(s[1..], cmp))
  {
    var t := Sort(s[1..], cmp);
    forall a | a in [s[0], e] + t ensures a in [e] + s {
      if a != s[0] && a != e {
        assert a in multiset(t);
        assert a in s[1..];
      }
    }
    ConsistentSub(cmp, [s[0], e] + t, [e] + s);
  }

  /** The elements equivalent to `e` in two pieces, one after the other. */
  lemma EquivalentConcat<T>(a: seq<T>, b: seq<T>, cmp: (T, T) -> int, e: T)
    ensures EquivalentTo(a + b, cmp, e) == EquivalentTo(a, cmp, e) + EquivalentTo(b, cmp, e)
  {
    Seqs.FilterConcat(a, b, x => cmp(x, e) == 0);
  }

  /** When nothing sorts strictly after anything else, the order is left unchanged. */
  lemma {:induction false} SortAllEqual<T>(s: seq<T>, cmp: (T, T) -> int)
    requires forall a, b | a in s && b in s :: cmp(a, b) <= 0
    ensures Sort(s, cmp) == s
  {
    if s != [] {
      SortAllEqual(s[1..], cmp);
      assert s[1..] == [] || s[1] in s;
    }
  }

  /** `x` lands right after a block `a` of elements it sorts strictly after. */
  lemma {:induction false} InsertAfterBlock<T>(x: T, a: seq<T>, b: seq<T>, cmp: (T, T) -> int)
    requires forall i :: 0 <= i < |a| ==> cmp(x, a[i]) > 0
    requires b == [] || cmp(x, b[0]) <= 0
    ensures Insert(x, a + b, cmp) == a + [x] + b
  {
    if a == [] {
      assert a + b == b;
    } else {
      var t := a[1..];
      assert (a + b)[1..] == t + b;
      forall i | 0 <= i < |t| ensures cmp(x, t[i]) > 0 {
        assert t[i] == a[i + 1];
      }
      InsertAfterBlock(x, t, b, cmp);
      Seqs.ConcatAssoc([a[0]], t + [x], b);
      Seqs.ConcatAssoc([a[0]], t, [x]);
      assert [a[0]] + t == a;
    }
  }
}
