/** Sequence helpers: the order-preserving filter behind JavaScript's
    `Array.prototype.filter` and Python's list comprehensions with an `if`,
    slicing to a maximum length, and the stable sort behind Python's
    `list.sort(key=...)` for string keys. */
module Seqs {
  import opened Strings

  /** Keeps, in their original order, the elements that satisfy `p`. */
  function Filter<T>(xs: seq<T>, p: T -> bool): (r: seq<T>)
    ensures |r| <= |xs|
  {
    if xs == [] then []
    else (if p(xs[0]) then [xs[0]] else []) + Filter(xs[1..], p)
  }

  /** The filter keeps exactly the elements that satisfy `p`. */
  lemma {:induction false} FilterMembers<T>(xs: seq<T>, p: T -> bool)
    ensures forall x :: x in Filter(xs, p) <==> x in xs && p(x)
  {
    if xs != [] {
      FilterMembers(xs[1..], p);
      assert xs == [xs[0]] + xs[1..];
    }
  }

  /** Every kept element satisfies `p`. */
  lemma {:induction false} FilterAll<T>(xs: seq<T>, p: T -> bool)
    ensures forall k :: 0 <= k < |Filter(xs, p)| ==> p(Filter(xs, p)[k])
  {
    if xs != [] {
      FilterAll(xs[1..], p);
      var head := if p(xs[0]) then [xs[0]] else [];
      var tail := Filter(xs[1..], p);
      forall k | 0 <= k < |head + tail|
        ensures p((head + tail)[k])
      {
        if k >= |head| {
          assert (head + tail)[k] == tail[k - |head|];
        }
      }
    }
  }

  /** Filtering distributes over concatenation, so the relative order of the
      kept elements is the order in which they appear in the input. */
  lemma {:induction false} FilterAppend<T>(a: seq<T>, b: seq<T>, p: T -> bool)
    ensures Filter(a + b, p) == Filter(a, p) + Filter(b, p)
  {
    if a == [] {
      assert a + b == b;
    } else {
      assert (a + b)[0] == a[0];
      assert (a + b)[1..] == a[1..] + b;
      FilterAppend(a[1..], b, p);
      var head := if p(a[0]) then [a[0]] else [];
      assert Filter(a + b, p) == head + Filter(a[1..] + b, p);
      assert Filter(a, p) == head + Filter(a[1..], p);
    }
  }

  /** Filtering one more element at the end. */
  lemma {:induction false} FilterSnoc<T>(xs: seq<T>, x: T, p: T -> bool)
    ensures Filter(xs + [x], p) == Filter(xs, p) + (if p(x) then [x] else [])
  {
    FilterAppend(xs, [x], p);
    assert [x][1..] == [];
  }

  /** One loop step of a filter over `xs`: the prefix grows by `xs[i]`. */
  lemma FilterStep<T>(xs: seq<T>, i: nat, p: T -> bool)
    requires i < |xs|
    ensures Filter(xs[..i + 1], p) == Filter(xs[..i], p) + (if p(xs[i]) then [xs[i]] else [])
  {
    assert xs[..i + 1] == xs[..i] + [xs[i]];
    FilterSnoc(xs[..i], xs[i], p);
  }

  /** Whatever holds of every element holds of every kept element. */
  lemma {:induction false} FilterPreserves<T>(xs: seq<T>, p: T -> bool, q: T -> bool)
    requires forall k :: 0 <= k < |xs| ==> q(xs[k])
    ensures forall k :: 0 <= k < |Filter(xs, p)| ==> q(Filter(xs, p)[k])
  {
    if xs != [] {
      FilterPreserves(xs[1..], p, q);
      var head := if p(xs[0]) then [xs[0]] else [];
      var tail := Filter(xs[1..], p);
      forall k | 0 <= k < |head + tail|
        ensures q((head + tail)[k])
      {
        if k >= |head| {
          assert (head + tail)[k] == tail[k - |head|];
        }
      }
    }
  }

  /** A filter whose predicate every element passes is the identity. */
  lemma {:induction false} FilterKeepsAll<T>(xs: seq<T>, p: T -> bool)
    requires forall k :: 0 <= k < |xs| ==> p(xs[k])
    ensures Filter(xs, p) == xs
  {
    if xs != [] {
      FilterKeepsAll(xs[1..], p);
    }
  }

  /** When `p` rejects only the element at `k`, filtering removes exactly it. */
  lemma {:induction false} FilterRemovesOne<T>(xs: seq<T>, k: int, p: T -> bool)
    requires 0 <= k < |xs| && !p(xs[k])
    requires forall i :: 0 <= i < |xs| && i != k ==> p(xs[i])
    ensures Filter(xs, p) == xs[..k] + xs[k + 1..]
  {
    var before, after := xs[..k], xs[k + 1..];
    forall i | 0 <= i < |before|
      ensures p(before[i])
    {
      assert before[i] == xs[i];
    }
    forall i | 0 <= i < |after|
      ensures p(after[i])
    {
      assert after[i] == xs[k + 1 + i];
    }
    FilterKeepsAll(before, p);
    FilterKeepsAll(after, p);
    assert Filter([xs[k]], p) == [] by {
      assert [xs[k]][1..] == [];
    }
    assert xs == before + [xs[k]] + after;
    FilterAppend(before + [xs[k]], after, p);
    FilterAppend(before, [xs[k]], p);
  }

  /** Python's `xs[:n]`. */
  function Take<T>(xs: seq<T>, n: nat): (r: seq<T>)
    ensures |r| <= n && r <= xs
    ensures |xs| <= n ==> r == xs
    ensures |xs| > n ==> |r| == n
  {
    if |xs| <= n then xs else xs[..n]
  }

  /** Cutting a sorted sequence keeps its smallest elements: whatever is
      kept is no larger than whatever is cut off. */
  lemma {:induction false} TakeSortedSmallest<T>(xs: seq<T>, key: T -> string, n: nat, d: T, e: T)
    requires SortedBy(xs, key)
    requires d in Take(xs, n) && e in xs && e !in Take(xs, n)
    ensures LexLe(key(d), key(e))
  {
    var r := Take(xs, n);
    var i :| 0 <= i < |r| && r[i] == d;
    var k :| 0 <= k < |xs| && xs[k] == e;
    assert xs[i] == d;
  }

  /** Python's `<=` on strings: lexicographic order of code points. */
  predicate LexLe(a: string, b: string)
  {
    a == [] || (b != [] && (a[0] < b[0] || (a[0] == b[0] && LexLe(a[1..], b[1..]))))
  }

  lemma {:induction false} LexLeTotal(a: string, b: string)
    ensures LexLe(a, b) || LexLe(b, a)
  {
    if a != [] && b != [] && a[0] == b[0] {
      LexLeTotal(a[1..], b[1..]);
    }
  }

  lemma {:induction false} LexLeTrans(a: string, b: string, c: string)
    requires LexLe(a, b) && LexLe(b, c)
    ensures LexLe(a, c)
  {
    if a != [] && b != [] && c != [] && a[0] == b[0] == c[0] {
      LexLeTrans(a[1..], b[1..], c[1..]);
    }
  }

  /** The elements appear in non-decreasing order of their keys. */
  ghost predicate SortedBy<T>(xs: seq<T>, key: T -> string)
  {
    forall i, j :: 0 <= i < j < |xs| ==> LexLe(key(xs[i]), key(xs[j]))
  }

  /** Inserts `x` in front of the first element whose key is not smaller, so
      that it stays ahead of the elements with an equal key. */
  function Insert<T>(x: T, ys: seq<T>, key: T -> string): (r: seq<T>)
    ensures multiset(r) == multiset(ys) + multiset{x}
    ensures |r| == |ys| + 1
  {
    if ys == [] || LexLe(key(x), key(ys[0])) then [x] + ys
    else
      assert ys == [ys[0]] + ys[1..];
      [ys[0]] + Insert(x, ys[1..], key)
  }

  lemma {:induction false} InsertSorted<T>(x: T, ys: seq<T>, key: T -> string)
    requires SortedBy(ys, key)
    ensures SortedBy(Insert(x, ys, key), key)
  {
    var r := Insert(x, ys, key);
    if ys == [] || LexLe(key(x), key(ys[0])) {
      forall i, j | 0 <= i < j < |r|
        ensures LexLe(key(r[i]), key(r[j]))
      {
        if i == 0 && j > 1 {
          LexLeTrans(key(x), key(ys[0]), key(ys[j - 1]));
        }
      }
    } else {
      LexLeTotal(key(x), key(ys[0]));
      var tail := Insert(x, ys[1..], key);
      InsertSorted(x, ys[1..], key);
      assert r == [ys[0]] + tail;
      forall k | 0 <= k < |tail|
        ensures LexLe(key(ys[0]), key(tail[k]))
      {
        assert tail[k] in multiset(tail);
        assert tail[k] in multiset(ys[1..]) || tail[k] == x;
        if tail[k] != x {
          assert tail[k] in ys[1..];
          var m :| 0 <= m < |ys[1..]| && ys[1..][m] == tail[k];
          assert ys[m + 1] == tail[k];
        }
      }
    }
  }

  /** A stable sort by string key (insertion sort). */
  function SortBy<T>(xs: seq<T>, key: T -> string): (r: seq<T>)
    ensures multiset(r) == multiset(xs)
    ensures |r| == |xs|
  {
    if xs == [] then []
    else
      assert xs == [xs[0]] + xs[1..];
      Insert(xs[0], SortBy(xs[1..], key), key)
  }

  lemma {:induction false} SortBySorted<T>(xs: seq<T>, key: T -> string)
    ensures SortedBy(SortBy(xs, key), key)
  {
    if xs != [] {
      SortBySorted(xs[1..], key);
      InsertSorted(xs[0], SortBy(xs[1..], key), key);
    }
  }
}
