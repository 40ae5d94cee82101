/** Python list idioms the services use: comprehension filters, the stable sort behind
    `sorted(..., reverse=True)` and `list.sort(reverse=True)`, and index ranges. */
module Seqs {

  // ---------------------------------------------------------------- filtering

  /** `[x for x in s if p(x)]` */
  function Filter<T>(s: seq<T>, p: T -> bool): (r: seq<T>)
    ensures |r| <= |s|
  {
    if s == [] then [] else (if p(s[0]) then [s[0]] else []) + Filter(s[1..], p)
  }

  /** The filter keeps exactly the elements that pass the test. */
  lemma {:induction false} FilterMembers<T>(s: seq<T>, p: T -> bool)
    ensures forall x :: x in Filter(s, p) ==> x in s && p(x)
    ensures forall i :: 0 <= i < |s| && p(s[i]) ==> s[i] in Filter(s, p)
  {
    if s != [] {
      FilterMembers(s[1..], p);
      assert forall i :: 1 <= i < |s| ==> s[i] == s[1..][i - 1];
    }
  }

  /** Filtering a list with a given first element. */
  lemma FilterCons<T>(y: T, t: seq<T>, p: T -> bool)
    ensures Filter([y] + t, p) == (if p(y) then [y] else []) + Filter(t, p)
  {
    assert ([y] + t)[0] == y && ([y] + t)[1..] == t;
  }

  /** Filtering a list that grows at the end: the step an append loop takes. */
  lemma {:induction false} FilterAppend<T>(s: seq<T>, x: T, p: T -> bool)
    ensures Filter(s + [x], p) == Filter(s, p) + (if p(x) then [x] else [])
  {
    if s == [] {
      assert s + [x] == [x];
      FilterCons(x, [], p);
    } else {
      assert s + [x] == [s[0]] + (s[1..] + [x]);
      FilterCons(s[0], s[1..] + [x], p);
      FilterAppend(s[1..], x, p);
      FilterCons(s[0], s[1..], p);
      assert s == [s[0]] + s[1..];
    }
  }

  /** Filtering distributes over concatenation. */
  lemma {:induction false} FilterConcat<T>(a: seq<T>, b: seq<T>, p: T -> bool)
    ensures Filter(a + b, p) == Filter(a, p) + Filter(b, p)
  {
    if a == [] {
      assert a + b == b;
      assert Filter(a, p) == [];
    } else {
      assert (a + b)[0] == a[0] && (a + b)[1..] == a[1..] + b;
      FilterConcat(a[1..], b, p);
      var h: seq<T> := if p(a[0]) then [a[0]] else [];
      assert Filter(a + b, p) == h + Filter(a[1..] + b, p);
      assert Filter(a, p) == h + Filter(a[1..], p);
    }
  }

  /** A filter that no element passes leaves nothing. */
  lemma {:induction false} FilterNone<T>(s: seq<T>, p: T -> bool)
    requires forall i :: 0 <= i < |s| ==> !p(s[i])
    ensures Filter(s, p) == []
  {
    if s != [] {
      FilterNone(s[1..], p);
    }
  }

  /** A filter that every element passes changes nothing. */
  lemma {:induction false} FilterAll<T>(s: seq<T>, p: T -> bool)
    requires forall i :: 0 <= i < |s| ==> p(s[i])
    ensures Filter(s, p) == s
  {
    if s != [] {
      FilterAll(s[1..], p);
    }
  }

  /** Two filters in a row are one filter by both tests. */
  lemma {:induction false} FilterAnd<T>(s: seq<T>, p: T -> bool, q: T -> bool, both: T -> bool)
    requires forall x :: both(x) == (p(x) && q(x))
    ensures Filter(Filter(s, p), q) == Filter(s, both)
  {
    if s != [] {
      FilterAnd(s[1..], p, q, both);
      var t := Filter(s[1..], p);
      if p(s[0]) {
        assert Filter(s, p) == [s[0]] + t;
        assert ([s[0]] + t)[0] == s[0] && ([s[0]] + t)[1..] == t;
        assert Filter([s[0]] + t, q) == (if q(s[0]) then [s[0]] else []) + Filter(t, q);
      } else {
        assert Filter(s, p) == t;
      }
    }
  }

  /** A test and its negation split a list. */
  lemma {:induction false} FilterComplement<T>(s: seq<T>, p: T -> bool, q: T -> bool)
    requires forall x :: q(x) == !p(x)
    ensures |Filter(s, p)| + |Filter(s, q)| == |s|
  {
    if s != [] {
      FilterComplement(s[1..], p, q);
    }
  }

  // ---------------------------------------------------------------- stable descending sort

  /** `s` is in non-increasing order of `key`. */
  predicate SortedDesc<T>(s: seq<T>, key: T -> real) {
    forall i, j :: 0 <= i < j < |s| ==> key(s[i]) >= key(s[j])
  }

  /** Insert `x` in front of the first element whose key is not greater than its own: `x`
      comes before the elements of `s` that tie with it, which keeps the sort stable. */
  function Insert<T>(x: T, s: seq<T>, key: T -> real): (r: seq<T>)
    ensures |r| == |s| + 1
    ensures multiset(r) == multiset(s) + multiset{x}
  {
    if s == [] || key(s[0]) <= key(x) then [x] + s
    else
      assert s == [s[0]] + s[1..];
      [s[0]] + Insert(x, s[1..], key)
  }

  /** Python's stable `sorted(s, key=key, reverse=True)`. */
  function SortDesc<T>(s: seq<T>, key: T -> real): (r: seq<T>)
    ensures |r| == |s|
    ensures multiset(r) == multiset(s)
  {
    if s == [] then []
    else
      assert s == [s[0]] + s[1..];
      Insert(s[0], SortDesc(s[1..], key), key)
  }

  /** One step of `SortDesc`, for unfolding it on a concrete list. */
  lemma SortDescStep<T>(s: seq<T>, key: T -> real)
    requires s != []
    ensures SortDesc(s, key) == Insert(s[0], SortDesc(s[1..], key), key)
  {
  }

  /** Sorting two elements: they swap exactly when the second has the greater key. */
  lemma SortDescTwo<T>(x: T, y: T, key: T -> real)
    ensures SortDesc([x, y], key) == if key(x) >= key(y) then [x, y] else [y, x]
  {
    var ys := [y];
    var none: seq<T> := [];
    assert [x, y][1..] == ys && ys[1..] == none;
    assert SortDesc(ys, key) == Insert(y, none, key) == ys;
    assert SortDesc([x, y], key) == Insert(x, ys, key);
  }

  /** Sorting three elements whose first has the smallest key moves it to the end. */
  lemma SortDescThreeLast<T>(x: T, y: T, z: T, key: T -> real)
    requires key(y) >= key(z) > key(x)
    ensures SortDesc([x, y, z], key) == [y, z, x]
  {
    var yz := [y, z];
    var zs := [z];
    var none: seq<T> := [];
    SortDescTwo(y, z, key);
    assert [x, y, z][1..] == yz && yz[1..] == zs && zs[1..] == none;
    assert SortDesc([x, y, z], key) == Insert(x, yz, key);
    assert Insert(x, zs, key) == [z] + Insert(x, none, key) == [z, x];
    assert Insert(x, yz, key) == [y] + Insert(x, zs, key);
  }

  /** `Insert` stops in front of an element whose key is not greater. */
  lemma InsertHere<T>(x: T, s: seq<T>, key: T -> real)
    requires s == [] || key(s[0]) <= key(x)
    ensures Insert(x, s, key) == [x] + s
  {
  }

  /** `Insert` passes an element whose key is greater. */
  lemma InsertPast<T>(x: T, s: seq<T>, key: T -> real)
    requires s != [] && key(s[0]) > key(x)
    ensures Insert(x, s, key) == [s[0]] + Insert(x, s[1..], key)
  {
  }

  lemma {:induction false} InsertSorted<T>(x: T, s: seq<T>, key: T -> real)
    requires SortedDesc(s, key)
    ensures SortedDesc(Insert(x, s, key), key)
  {
    if s != [] && key(s[0]) > key(x) {
      InsertSorted(x, s[1..], key);
      var t := Insert(x, s[1..], key);
      forall i | 0 < i < |[s[0]] + t|
        ensures key(s[0]) >= key(([s[0]] + t)[i])
      {
        assert ([s[0]] + t)[i] == t[i - 1];
        assert t[i - 1] in multiset(t);
        assert t[i - 1] in multiset(s[1..]) + multiset{x};
        if t[i - 1] != x {
          assert t[i - 1] in s[1..];
        }
      }
    }
  }

  /** The result of `SortDesc` is in non-increasing key order. */
  lemma {:induction false} SortDescSorted<T>(s: seq<T>, key: T -> real)
    ensures SortedDesc(SortDesc(s, key), key)
  {
    if s != [] {
      SortDescSorted(s[1..], key);
      InsertSorted(s[0], SortDesc(s[1..], key), key);
    }
  }

  /** Sorting a list that is already in order returns it unchanged. */
  lemma {:induction false} SortDescOfSorted<T>(s: seq<T>, key: T -> real)
    requires SortedDesc(s, key)
    ensures SortDesc(s, key) == s
  {
    if s != [] {
      SortDescOfSorted(s[1..], key);
      assert [s[0]] + s[1..] == s;
    }
  }

  /** The elements whose key equals `c`. */
  function KeyIs<T>(key: T -> real, c: real): T -> bool {
    x => key(x) == c
  }

  lemma {:induction false} InsertKeepsTies<T>(x: T, s: seq<T>, key: T -> real, c: real)
    requires SortedDesc(s, key)
    ensures Filter(Insert(x, s, key), KeyIs(key, c))
         == (if key(x) == c then [x] else []) + Filter(s, KeyIs(key, c))
  {
    var p := KeyIs(key, c);
    if s == [] || key(s[0]) <= key(x) {
      InsertHere(x, s, key);
      FilterCons(x, s, p);
    } else {
      InsertPast(x, s, key);
      InsertKeepsTies(x, s[1..], key, c);
      FilterCons(s[0], Insert(x, s[1..], key), p);
      FilterCons(s[0], s[1..], p);
      assert [s[0]] + s[1..] == s;
      TiesApart(x, s, key, c);
    }
  }

  /** An element whose key is greater than that of `x` never ties with `x`. */
  lemma TiesApart<T>(x: T, s: seq<T>, key: T -> real, c: real)
    requires s != [] && key(s[0]) > key(x)
    ensures var p := KeyIs(key, c);
      (if p(s[0]) then [s[0]] else []) + ((if p(x) then [x] else []) + Filter(s[1..], p))
      == (if p(x) then [x] else []) + ((if p(s[0]) then [s[0]] else []) + Filter(s[1..], p))
  {
  }


  /** Stability: among elements with equal keys the sort keeps the input order. */
  lemma {:induction false} SortDescStable<T>(s: seq<T>, key: T -> real, c: real)
    ensures Filter(SortDesc(s, key), KeyIs(key, c)) == Filter(s, KeyIs(key, c))
  {
    if s != [] {
      SortDescSorted(s[1..], key);
      InsertKeepsTies(s[0], SortDesc(s[1..], key), key, c);
      SortDescStable(s[1..], key, c);
    }
  }

  /** The first `k` elements of a sorted list have keys at least those of the rest, and the
      two parts together hold exactly the input's elements. */
  lemma SortDescSplit<T>(s: seq<T>, key: T -> real, k: nat)
    requires k <= |s|
    ensures multiset(SortDesc(s, key)[..k]) + multiset(SortDesc(s, key)[k..]) == multiset(s)
    ensures forall x, y :: x in SortDesc(s, key)[..k] && y in SortDesc(s, key)[k..] ==> key(y) <= key(x)
  {
    var r := SortDesc(s, key);
    SortDescSorted(s, key);
    SplitMultiset(r, k);
    SortedSplit(r, key, k);
  }

  /** The two parts of a list split at `k` hold its elements between them. */
  lemma SplitMultiset<T>(r: seq<T>, k: nat)
    requires k <= |r|
    ensures multiset(r[..k]) + multiset(r[k..]) == multiset(r)
  {
    assert r == r[..k] + r[k..];
  }

  /** An element of the input left out of the first `k` of its sort has a key no greater than
      any element kept. */
  lemma SortDescLeftOut<T>(s: seq<T>, key: T -> real, k: nat, x: T, y: T)
    requires k <= |s| && x in s && x !in SortDesc(s, key)[..k] && y in SortDesc(s, key)[..k]
    ensures key(x) <= key(y)
  {
    SortDescSplit(s, key, k);
    assert x in multiset(s);
    assert x in SortDesc(s, key)[k..];
  }

  /** In a sorted list no element after position `k` has a greater key than one before it. */
  lemma SortedSplit<T>(r: seq<T>, key: T -> real, k: nat)
    requires k <= |r| && SortedDesc(r, key)
    ensures forall x, y :: x in r[..k] && y in r[k..] ==> key(y) <= key(x)
  {
    forall x, y | x in r[..k] && y in r[k..] ensures key(y) <= key(x) {
      var i :| 0 <= i < k && r[..k][i] == x;
      var j :| 0 <= j < |r| - k && r[k..][j] == y;
      assert r[i] == x && r[k + j] == y;
    }
  }

  // ---------------------------------------------------------------- indices

  /** `list(range(n))` */
  function Range(n: nat): (r: seq<nat>)
    ensures |r| == n
    ensures forall i :: 0 <= i < n ==> r[i] == i
  {
    seq(n, i requires 0 <= i < n => i)
  }

  /** No element occurs twice. */
  predicate Distinct<T(==)>(s: seq<T>) {
    forall i, j :: 0 <= i < j < |s| ==> s[i] != s[j]
  }

  /** A filter of a list without repeats has no repeats. */
  lemma {:induction false} FilterDistinct<T>(s: seq<T>, p: T -> bool)
    requires Distinct(s)
    ensures Distinct(Filter(s, p))
  {
    if s != [] {
      FilterDistinct(s[1..], p);
      FilterMembers(s[1..], p);
      assert s[0] !in s[1..];
      assert s[0] !in Filter(s[1..], p);
    }
  }

  /** A permutation of a list without repeats has no repeats. */
  lemma {:induction false} PermutationDistinct<T>(s: seq<T>, t: seq<T>)
    requires Distinct(s) && multiset(s) == multiset(t)
    ensures Distinct(t)
  {
    forall i, j | 0 <= i < j < |t| ensures t[i] != t[j] {
      if t[i] == t[j] {
        assert t == t[..j] + [t[j]] + t[j + 1..];
        assert t[i] in t[..j];
        assert multiset(t)[t[i]] >= 2;
        DistinctCount(s, t[i]);
        assert false;
      }
    }
  }

  /** In a list without repeats every element occurs at most once. */
  lemma {:induction false} DistinctCount<T>(s: seq<T>, x: T)
    requires Distinct(s)
    ensures multiset(s)[x] <= 1
  {
    if s != [] {
      assert s == [s[0]] + s[1..];
      DistinctCount(s[1..], x);
      if x == s[0] {
        assert x !in s[1..];
      }
    }
  }

  /** A list without repeats has as many elements as the set of its elements. */
  lemma {:induction false} DistinctCardinality<T>(s: seq<T>, elems: set<T>)
    requires Distinct(s) && forall x :: x in s <==> x in elems
    ensures |elems| == |s|
    decreases |s|
  {
    if s == [] {
      assert forall x :: x !in elems;
      assert elems == {};
    } else {
      assert s[0] in s;
      var rest := elems - {s[0]};
      forall x ensures x in s[1..] <==> x in rest {
        assert x in s[1..] ==> x in s;
        assert x in s && x != s[0] ==> x in s[1..];
        if x in s[1..] {
          var j :| 0 <= j < |s[1..]| && s[1..][j] == x;
          assert s[j + 1] == x;
        }
      }
      DistinctCardinality(s[1..], rest);
    }
  }

  /** Strictly ascending. */
  predicate Increasing(s: seq<nat>) {
    forall i, j :: 0 <= i < j < |s| ==> s[i] < s[j]
  }

  /** A filter of an ascending list is ascending. */
  lemma {:induction false} FilterIncreasing(s: seq<nat>, p: nat -> bool)
    requires Increasing(s)
    ensures Increasing(Filter(s, p))
  {
    if s != [] {
      FilterIncreasing(s[1..], p);
      FilterMembers(s[1..], p);
      var t := Filter(s[1..], p);
      forall j | 0 <= j < |t| ensures s[0] < t[j] {
        assert t[j] in s[1..];
      }
    }
  }

  /** An ascending list is determined by its elements. */
  lemma {:induction false} IncreasingUnique(a: seq<nat>, b: seq<nat>)
    requires Increasing(a) && Increasing(b)
    requires forall x :: x in a <==> x in b
    ensures a == b
    decreases |a|
  {
    if a != [] {
      assert a[0] in a;
    }
    if b != [] {
      assert b[0] in b;
    }
    if a != [] && b != [] {
      assert a[0] in b;
      assert b[0] in a;
      assert a[0] == b[0];
      forall x ensures x in a[1..] <==> x in b[1..] {
        assert x in a[1..] <==> x in a && x != a[0];
        assert x in b[1..] <==> x in b && x != b[0];
      }
      IncreasingUnique(a[1..], b[1..]);
      assert a == [a[0]] + a[1..] && b == [b[0]] + b[1..];
    }
  }

  /** Concatenation groups either way. */
  lemma AppendAssoc<T>(a: seq<T>, b: seq<T>, c: seq<T>)
    ensures a + (b + c) == (a + b) + c
  {
  }

  /** The prefix of a list as long as the list is the list. */
  lemma PrefixAll<T>(s: seq<T>)
    ensures s[..|s|] == s
  {
  }

  /** A prefix one longer adds the next element. */
  lemma PrefixStep<T>(s: seq<T>, k: nat)
    requires k < |s|
    ensures s[..k + 1] == s[..k] + [s[k]]
  {
  }

  /** Substituting one decomposition into another and regrouping. */
  lemma Regroup<T>(a: seq<T>, head: seq<T>, b: seq<T>, rest: seq<T>, c: seq<T>)
    requires a == head + b && b == rest + c
    ensures a == (head + rest) + c
  {
  }

  /** The empty sequence is a left unit of concatenation. */
  lemma EmptyPrefix<T>(s: seq<T>)
    ensures [] + s == s
  {
  }
  /** The elements of the lists of `ss`, list after list. */
  function Concat<T>(ss: seq<seq<T>>): seq<T>
    decreases |ss|
  {
    if ss == [] then [] else Concat(ss[..|ss| - 1]) + ss[|ss| - 1]
  }

  /** Adding a list at the end adds its elements at the end. */
  lemma ConcatAppend<T>(ss: seq<seq<T>>, s: seq<T>)
    ensures Concat(ss + [s]) == Concat(ss) + s
  {
    assert (ss + [s])[..|ss|] == ss;
  }
  /** `s[j:j + 1]` */
  function Head<T>(s: seq<T>, j: nat): seq<T> {
    if j < |s| then [s[j]] else []
  }

  /** `s[j:]` */
  function Drop<T>(s: seq<T>, j: nat): seq<T> {
    if j < |s| then s[j..] else []
  }

  /** What positions `p` up to `n` contribute, position after position. */
  function Gather<T>(kept: nat -> seq<T>, p: nat, n: nat): seq<T>
    decreases n - p
  {
    if p >= n then [] else kept(p) + Gather(kept, p + 1, n)
  }

  lemma GatherEmpty<T>(kept: nat -> seq<T>, p: nat, n: nat)
    requires p >= n
    ensures Gather(kept, p, n) == []
  {
  }

  /** A block of `m` positions from `i` whose contributions are the items of `out`, one
      each while they last, contributes `out`. */
  lemma GatherBlock<T>(kept: nat -> seq<T>, n: nat, i: nat, m: nat, out: seq<T>)
    requires i + m <= n && |out| <= m
    requires forall t :: 0 <= t < m ==> kept(i + t) == Head(out, t)
    ensures Gather(kept, i, n) == out + Gather(kept, i + m, n)
  {
    GatherBlockFrom(kept, n, i, 0, m, out);
    assert Drop(out, 0) == out;
  }

  lemma {:induction false} GatherBlockFrom<T>(kept: nat -> seq<T>, n: nat, i: nat, j: nat, m: nat, out: seq<T>)
    requires j <= m && i + m <= n && |out| <= m
    requires forall t :: 0 <= t < m ==> kept(i + t) == Head(out, t)
    ensures Gather(kept, i + j, n) == Drop(out, j) + Gather(kept, i + m, n)
    decreases m - j
  {
    if j < m {
      GatherBlockFrom(kept, n, i, j + 1, m, out);
      assert kept(i + j) == Head(out, j);
      assert Drop(out, j) == Head(out, j) + Drop(out, j + 1);
      Regroup(Gather(kept, i + j, n), Head(out, j), Gather(kept, i + j + 1, n), Drop(out, j + 1), Gather(kept, i + m, n));
    } else {
      assert Drop(out, j) == [];
    }
  }

  /** Positions contributing at most one item each contribute at most one item each. */
  lemma {:induction false} GatherBounded<T>(kept: nat -> seq<T>, p: nat, n: nat)
    requires forall q :: p <= q < n ==> |kept(q)| <= 1
    ensures |Gather(kept, p, n)| <= if p < n then n - p else 0
    decreases n - p
  {
    if p < n {
      GatherBounded(kept, p + 1, n);
    }
  }

  /** Positions contributing one item each contribute those items, in order. */
  lemma {:induction false} GatherSingletons<T>(kept: nat -> seq<T>, p: nat, n: nat)
    requires forall q :: p <= q < n ==> |kept(q)| == 1
    ensures |Gather(kept, p, n)| == if p < n then n - p else 0
    ensures forall k :: 0 <= k < |Gather(kept, p, n)| ==> kept(p + k) == [Gather(kept, p, n)[k]]
    decreases n - p
  {
    if p < n {
      GatherSingletons(kept, p + 1, n);
      var rest := Gather(kept, p + 1, n);
      var all := Gather(kept, p, n);
      forall k | 0 <= k < |all| ensures kept(p + k) == [all[k]] {
        if k > 0 {
          assert all[k] == rest[k - 1];
        } else {
          assert kept(p) == [kept(p)[0]];
        }
      }
    }
  }
}
