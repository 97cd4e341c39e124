/** Generic sequence operations that stand for JavaScript's Array.prototype
    `filter`, stable `sort`, and for the "subsequence" relation. */
module Seqs {

  lemma AppendAssociative<T>(a: seq<T>, b: seq<T>, c: seq<T>)
    ensures (a + b) + c == a + (b + c)
  {
  }

  /** Array.prototype.filter: the elements of `xs` satisfying `p`, in order. */
  function Filter<T>(xs: seq<T>, p: T -> bool): (r: seq<T>)
    ensures |r| <= |xs|
  {
    if xs == [] then [] else (if p(xs[0]) then [xs[0]] else []) + Filter(xs[1..], p)
  }

  /** Filter keeps exactly the elements satisfying `p`. */
  lemma {:induction false} FilterMembers<T>(xs: seq<T>, p: T -> bool)
    ensures forall i :: 0 <= i < |Filter(xs, p)| ==> Filter(xs, p)[i] in xs && p(Filter(xs, p)[i])
    ensures forall i :: 0 <= i < |xs| && p(xs[i]) ==> xs[i] in Filter(xs, p)
  {
    if xs != [] {
      FilterMembers(xs[1..], p);
      assert xs == [xs[0]] + xs[1..];
    }
  }

  lemma {:induction false} FilterAppend<T>(xs: seq<T>, ys: seq<T>, p: T -> bool)
    ensures Filter(xs + ys, p) == Filter(xs, p) + Filter(ys, p)
  {
    if xs == [] {
      assert xs + ys == ys;
    } else {
      var head := if p(xs[0]) then [xs[0]] else [];
      assert (xs + ys)[0] == xs[0];
      assert (xs + ys)[1..] == xs[1..] + ys;
      FilterAppend(xs[1..], ys, p);
      calc {
        Filter(xs + ys, p);
        head + Filter(xs[1..] + ys, p);
        head + (Filter(xs[1..], p) + Filter(ys, p));
        (head + Filter(xs[1..], p)) + Filter(ys, p);
      }
    }
  }

  lemma FilterCountAppend<T>(xs: seq<T>, ys: seq<T>, p: T -> bool)
    ensures |Filter(xs + ys, p)| == |Filter(xs, p)| + |Filter(ys, p)|
  {
    FilterAppend(xs, ys, p);
  }

  /** Array.prototype.map. */
  function MapSeq<T, U>(xs: seq<T>, f: T -> U): (r: seq<U>)
    ensures |r| == |xs|
  {
    if xs == [] then [] else [f(xs[0])] + MapSeq(xs[1..], f)
  }

  lemma {:induction false} MapSeqAt<T, U>(xs: seq<T>, f: T -> U, i: nat)
    requires i < |xs|
    ensures MapSeq(xs, f)[i] == f(xs[i])
  {
    if i > 0 {
      MapSeqAt(xs[1..], f, i - 1);
    }
  }

  lemma {:induction false} MapSeqAppend<T, U>(xs: seq<T>, ys: seq<T>, f: T -> U)
    ensures MapSeq(xs + ys, f) == MapSeq(xs, f) + MapSeq(ys, f)
  {
    assert |MapSeq(xs + ys, f)| == |MapSeq(xs, f) + MapSeq(ys, f)|;
    forall i | 0 <= i < |xs + ys|
      ensures MapSeq(xs + ys, f)[i] == (MapSeq(xs, f) + MapSeq(ys, f))[i]
    {
      MapSeqAt(xs + ys, f, i);
      if i < |xs| {
        assert (xs + ys)[i] == xs[i];
        MapSeqAt(xs, f, i);
      } else {
        assert (xs + ys)[i] == ys[i - |xs|];
        MapSeqAt(ys, f, i - |xs|);
      }
    }
  }

  /** Filter depends only on the predicate's values on the elements. */
  lemma {:induction false} FilterCongruent<T>(xs: seq<T>, p: T -> bool, q: T -> bool)
    requires forall i :: 0 <= i < |xs| ==> p(xs[i]) == q(xs[i])
    ensures Filter(xs, p) == Filter(xs, q)
  {
    if xs != [] {
      FilterCongruent(xs[1..], p, q);
    }
  }

  /** Filter is empty exactly when no element satisfies the predicate. */
  lemma {:induction false} FilterEmpty<T>(xs: seq<T>, p: T -> bool)
    ensures |Filter(xs, p)| == 0 <==> forall i :: 0 <= i < |xs| ==> !p(xs[i])
  {
    if xs != [] {
      FilterEmpty(xs[1..], p);
      assert forall i :: 1 <= i < |xs| ==> xs[i] == xs[1..][i - 1];
    }
  }

  /** Filtering by a predicate and by its negation splits the elements. */
  lemma {:induction false} FilterPartition<T>(xs: seq<T>, p: T -> bool, q: T -> bool)
    requires forall i :: 0 <= i < |xs| ==> q(xs[i]) == !p(xs[i])
    ensures multiset(Filter(xs, p)) + multiset(Filter(xs, q)) == multiset(xs)
  {
    if xs != [] {
      FilterPartition(xs[1..], p, q);
      assert xs == [xs[0]] + xs[1..];
    }
  }

  predicate IncreasingBy<T>(xs: seq<T>, key: T -> int)
  {
    forall i, j :: 0 <= i < j < |xs| ==> key(xs[i]) < key(xs[j])
  }

  /** Filtering keeps a strictly increasing sequence strictly increasing. */
  lemma {:induction false} FilterIncreasing<T>(xs: seq<T>, p: T -> bool, key: T -> int)
    requires IncreasingBy(xs, key)
    ensures IncreasingBy(Filter(xs, p), key)
  {
    if xs != [] {
      var t := xs[1..];
      assert IncreasingBy(t, key) by {
        forall i, j | 0 <= i < j < |t| ensures key(t[i]) < key(t[j]) {
          assert t[i] == xs[i + 1] && t[j] == xs[j + 1];
        }
      }
      FilterIncreasing(t, p, key);
      FilterMembers(t, p);
      var f := Filter(t, p);
      forall j | 0 <= j < |f| ensures key(xs[0]) < key(f[j]) {
        var k :| 0 <= k < |t| && t[k] == f[j];
        assert t[k] == xs[k + 1];
      }
      if p(xs[0]) {
        var r := [xs[0]] + f;
        assert Filter(xs, p) == r;
        forall i, j | 0 <= i < j < |r| ensures key(r[i]) < key(r[j]) {
          if i > 0 {
            assert r[i] == f[i - 1] && r[j] == f[j - 1];
          } else {
            assert r[j] == f[j - 1];
          }
        }
      } else {
        assert Filter(xs, p) == f;
      }
    }
  }

  /** Filtering a one-element sequence. */
  lemma FilterSingleton<T>(x: T, p: T -> bool)
    ensures Filter([x], p) == if p(x) then [x] else []
  {
    assert [x][1..] == [];
  }

  /** Filtering by `q` after filtering by a weaker `p` is filtering by `q` alone. */
  lemma {:induction false} FilterFilter<T>(xs: seq<T>, p: T -> bool, q: T -> bool)
    requires forall x :: q(x) ==> p(x)
    ensures Filter(Filter(xs, p), q) == Filter(xs, q)
  {
    if xs != [] {
      FilterFilter(xs[1..], p, q);
      var head := if p(xs[0]) then [xs[0]] else [];
      FilterAppend(head, Filter(xs[1..], p), q);
      if p(xs[0]) { FilterSingleton(xs[0], q); }
    }
  }

  /** When `a` holds exactly where one of the disjoint `b`, `c` holds, the
      counts add up. */
  lemma {:induction false} FilterCountSplit<T>(xs: seq<T>, a: T -> bool, b: T -> bool, c: T -> bool)
    requires forall x :: a(x) <==> b(x) || c(x)
    requires forall x :: !(b(x) && c(x))
    ensures |Filter(xs, a)| == |Filter(xs, b)| + |Filter(xs, c)|
  {
    if xs != [] {
      FilterCountSplit(xs[1..], a, b, c);
    }
  }

  /** Filtering by a stronger predicate keeps no more elements. */
  lemma {:induction false} FilterCountMono<T>(xs: seq<T>, p: T -> bool, q: T -> bool)
    requires forall x :: p(x) ==> q(x)
    ensures |Filter(xs, p)| <= |Filter(xs, q)|
  {
    if xs != [] {
      FilterCountMono(xs[1..], p, q);
    }
  }

  /** `a` can be obtained from `b` by deleting elements. */
  predicate IsSubsequence<T(==)>(a: seq<T>, b: seq<T>)
    decreases |b|
  {
    if a == [] then true
    else if b == [] then false
    else (a[0] == b[0] && IsSubsequence(a[1..], b[1..])) || IsSubsequence(a, b[1..])
  }

  lemma {:induction false} FilterIsSubsequence<T>(xs: seq<T>, p: T -> bool)
    ensures IsSubsequence(Filter(xs, p), xs)
  {
    if xs != [] {
      FilterIsSubsequence(xs[1..], p);
      if p(xs[0]) {
        assert Filter(xs, p) == [xs[0]] + Filter(xs[1..], p);
        assert Filter(xs, p)[1..] == Filter(xs[1..], p);
      } else {
        assert Filter(xs, p) == Filter(xs[1..], p);
      }
    }
  }

  /** The predicate "has key `k`", used to state stability of sorting. */
  function KeyIs<T>(key: T -> real, k: real): T -> bool
  {
    x => key(x) == k
  }

  ghost predicate SortedBy<T>(xs: seq<T>, key: T -> real)
  {
    forall i, j :: 0 <= i < j < |xs| ==> key(xs[i]) <= key(xs[j])
  }

  /** Inserts `x` before the first element whose key is not smaller, so that
      `x`, which came first in the input, stays ahead of equal keys. */
  function Insert<T>(x: T, xs: seq<T>, key: T -> real): (r: seq<T>)
    ensures multiset(r) == multiset(xs) + multiset{x}
    ensures |r| == |xs| + 1
  {
    if xs == [] || key(x) <= key(xs[0]) then [x] + xs
    else
      assert xs == [xs[0]] + xs[1..];
      [xs[0]] + Insert(x, xs[1..], key)
  }

  /** A stable sort by ascending key, as Array.prototype.sort is with the
      comparator `(a, b) => key(a) - key(b)`. */
  function SortBy<T>(xs: seq<T>, key: T -> real): (r: seq<T>)
    ensures multiset(r) == multiset(xs)
    ensures |r| == |xs|
  {
    if xs == [] then []
    else
      assert xs == [xs[0]] + xs[1..];
      Insert(xs[0], SortBy(xs[1..], key), key)
  }

  lemma {:induction false} InsertSorted<T>(x: T, xs: seq<T>, key: T -> real)
    requires SortedBy(xs, key)
    ensures SortedBy(Insert(x, xs, key), key)
  {
    if xs == [] || key(x) <= key(xs[0]) {
    } else {
      InsertSorted(x, xs[1..], key);
      var t := Insert(x, xs[1..], key);
      forall i | 0 <= i < |t| ensures key(xs[0]) <= key(t[i]) {
        assert t[i] in multiset(t);
        assert t[i] == x || t[i] in xs[1..];
      }
      assert [xs[0]] + t == Insert(x, xs, key);
    }
  }

  lemma {:induction false} SortBySorted<T>(xs: seq<T>, key: T -> real)
    ensures SortedBy(SortBy(xs, key), key)
  {
    if xs != [] {
      SortBySorted(xs[1..], key);
      InsertSorted(xs[0], SortBy(xs[1..], key), key);
    }
  }

  lemma {:induction false} InsertStable<T>(x: T, xs: seq<T>, key: T -> real, k: real)
    ensures Filter(Insert(x, xs, key), KeyIs(key, k)) == Filter([x] + xs, KeyIs(key, k))
  {
    var p := KeyIs(key, k);
    if xs != [] && key(x) > key(xs[0]) {
      var y, rest := xs[0], xs[1..];
      assert xs == [y] + rest;
      InsertStable(x, rest, key, k);
      FilterSingleton(x, p);
      FilterSingleton(y, p);
      // x and y have different keys, so at most one of them is kept
      assert Filter([y], p) + Filter([x], p) == Filter([x], p) + Filter([y], p);
      calc {
        Filter(Insert(x, xs, key), p);
        Filter([y] + Insert(x, rest, key), p);
        { FilterAppend([y], Insert(x, rest, key), p); }
        Filter([y], p) + Filter(Insert(x, rest, key), p);
        Filter([y], p) + Filter([x] + rest, p);
        { FilterAppend([x], rest, p); }
        Filter([y], p) + (Filter([x], p) + Filter(rest, p));
        (Filter([x], p) + Filter([y], p)) + Filter(rest, p);
        { FilterAppend([y], rest, p); }
        Filter([x], p) + Filter(xs, p);
        { FilterAppend([x], xs, p); }
        Filter([x] + xs, p);
      }
    }
  }

  /** Stability: the elements with any one key keep their input order. */
  lemma {:induction false} SortByStable<T>(xs: seq<T>, key: T -> real, k: real)
    ensures Filter(SortBy(xs, key), KeyIs(key, k)) == Filter(xs, KeyIs(key, k))
  {
    if xs != [] {
      var p := KeyIs(key, k);
      var x, rest := xs[0], xs[1..];
      var sorted := SortBy(rest, key);
      assert xs == [x] + rest;
      assert SortBy(xs, key) == Insert(x, sorted, key);
      calc {
        Filter(SortBy(xs, key), p);
        Filter(Insert(x, sorted, key), p);
        { InsertStable(x, sorted, key, k); }
        Filter([x] + sorted, p);
        { FilterAppend([x], sorted, p); }
        Filter([x], p) + Filter(sorted, p);
        { SortByStable(rest, key, k); }
        Filter([x], p) + Filter(rest, p);
        { FilterAppend([x], rest, p); }
        Filter(xs, p);
      }
    }
  }
}
