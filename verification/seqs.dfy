/** Sequence vocabulary shared by the list screens: order-preserving filtering,
    subsequences, duplicate-freedom and the stable sort behind `Array.prototype.sort`. */
module Seqs {

  /** `s.filter(p)`: the elements of `s` that satisfy `p`, in their original order. */
  function Filter<T>(s: seq<T>, p: T -> bool): (r: seq<T>)
    ensures |r| <= |s|
    ensures forall i :: 0 <= i < |r| ==> r[i] in s && p(r[i])
    ensures forall i :: 0 <= i < |s| && p(s[i]) ==> s[i] in r
  {
    if s == [] then []
    else (if p(s[0]) then [s[0]] else []) + Filter(s[1..], p)
  }

  lemma {:induction false} FilterAppend<T>(a: seq<T>, b: seq<T>, p: T -> bool)
    ensures Filter(a + b, p) == Filter(a, p) + Filter(b, p)
  {
    if a == [] {
      assert a + b == b;
    } else {
      assert (a + b)[1..] == a[1..] + b;
      FilterAppend(a[1..], b, p);
    }
  }

  /** Filtering keeps everything exactly when every element passes. */
  lemma {:induction false} FilterAll<T>(s: seq<T>, p: T -> bool)
    requires forall i :: 0 <= i < |s| ==> p(s[i])
    ensures Filter(s, p) == s
  {
    if s != [] {
      FilterAll(s[1..], p);
    }
  }

  /** Filtering counts: an element passing `p` keeps its multiplicity, any other is gone. */
  lemma {:induction false} FilterCount<T>(s: seq<T>, p: T -> bool, x: T)
    ensures multiset(Filter(s, p))[x] == if p(x) then multiset(s)[x] else 0
  {
    if s != [] {
      var y, t := s[0], s[1..];
      assert s == [y] + t;
      FilterCount(t, p, x);
      FilterCons(y, t, p);
    }
  }

  /** `Filter` keeps every occurrence of each element that passes and none of the others. */
  lemma FilterCounts<T>(s: seq<T>, p: T -> bool)
    ensures forall x :: multiset(Filter(s, p))[x] == (if p(x) then multiset(s)[x] else 0)
  {
    forall x ensures multiset(Filter(s, p))[x] == (if p(x) then multiset(s)[x] else 0) {
      FilterCount(s, p, x);
    }
  }

  /** The conjunction of two predicates. */
  function Both<T>(p: T -> bool, q: T -> bool): T -> bool {
    x => p(x) && q(x)
  }

  /** A rearrangement of a filtered sequence holds only elements that pass the filter. */
  lemma PermutedFilterMembers<T>(r: seq<T>, s: seq<T>, p: T -> bool)
    requires multiset(r) == multiset(Filter(s, p))
    ensures forall i :: 0 <= i < |r| ==> r[i] in s && p(r[i])
  {
    forall i | 0 <= i < |r| ensures r[i] in s && p(r[i]) {
      assert r[i] in multiset(r);
      assert r[i] in Filter(s, p);
    }
  }

  /** Two filters in a row are one filter by the conjunction. */
  lemma {:induction false} FilterFilter<T>(s: seq<T>, p: T -> bool, q: T -> bool)
    ensures Filter(Filter(s, p), q) == Filter(s, Both(p, q))
  {
    if s != [] {
      FilterFilter(s[1..], p, q);
      var rest := Filter(s[1..], p);
      if p(s[0]) {
        assert Filter(s, p) == [s[0]] + rest;
        assert ([s[0]] + rest)[1..] == rest;
      } else {
        assert Filter(s, p) == rest;
      }
    }
  }

  /** Filters by predicates that agree everywhere on `s` agree. */
  lemma {:induction false} FilterCongruent<T>(s: seq<T>, p: T -> bool, q: T -> bool)
    requires forall i :: 0 <= i < |s| ==> p(s[i]) == q(s[i])
    ensures Filter(s, p) == Filter(s, q)
  {
    if s != [] {
      FilterCongruent(s[1..], p, q);
    }
  }

  /** Filtering twice by the same predicate is filtering once. */
  lemma FilterIdempotent<T>(s: seq<T>, p: T -> bool)
    ensures Filter(Filter(s, p), p) == Filter(s, p)
  {
    FilterAll(Filter(s, p), p);
  }

  /** `a` is obtained from `b` by deleting elements (order kept). */
  predicate IsSubseq<T(==)>(a: seq<T>, b: seq<T>)
    decreases |b|
  {
    if a == [] then true
    else if b == [] then false
    else if a[0] == b[0] then IsSubseq(a[1..], b[1..])
    else IsSubseq(a, b[1..])
  }

  lemma {:induction false} FilterIsSubseq<T>(s: seq<T>, p: T -> bool)
    ensures IsSubseq(Filter(s, p), s)
  {
    if s != [] {
      var f := Filter(s[1..], p);
      FilterIsSubseq(s[1..], p);
      if p(s[0]) {
        assert Filter(s, p) == [s[0]] + f;
        assert ([s[0]] + f)[1..] == f;
      } else {
        assert Filter(s, p) == f;
        SubseqDropHead(f, s);
      }
    }
  }

  /** A subsequence of the tail is a subsequence of the whole. */
  lemma {:induction false} SubseqDropHead<T>(a: seq<T>, b: seq<T>)
    requires b != []
    requires IsSubseq(a, b[1..])
    ensures IsSubseq(a, b)
    decreases |b|, 0
  {
    if a != [] && a[0] == b[0] {
      SubseqTail(a, b[1..]);
    }
  }

  /** Dropping the first element of a subsequence keeps it a subsequence. */
  lemma {:induction false} SubseqTail<T>(a: seq<T>, b: seq<T>)
    requires a != []
    requires IsSubseq(a, b)
    ensures IsSubseq(a[1..], b)
    decreases |b|, 1
  {
    if a[1..] != [] {
      if a[0] == b[0] {
        SubseqDropHead(a[1..], b);
      } else {
        SubseqTail(a, b[1..]);
        SubseqDropHead(a[1..], b);
      }
    }
  }

  /** Every element of a subsequence occurs in the whole. */
  lemma {:induction false} SubseqMembers<T>(a: seq<T>, b: seq<T>)
    requires IsSubseq(a, b)
    ensures forall i :: 0 <= i < |a| ==> a[i] in b
    decreases |b|
  {
    if a != [] {
      if a[0] == b[0] {
        SubseqMembers(a[1..], b[1..]);
        forall i | 1 <= i < |a| ensures a[i] in b {
          assert a[i] == a[1..][i - 1];
        }
      } else {
        SubseqMembers(a, b[1..]);
      }
    }
  }

  /** A subsequence of a sorted sequence is sorted. */
  lemma {:induction false} SubseqSorted<T>(a: seq<T>, b: seq<T>, le: (T, T) -> bool)
    requires IsSubseq(a, b)
    requires Sorted(b, le)
    ensures Sorted(a, le)
    decreases |b|
  {
    if a != [] {
      if a[0] == b[0] {
        SubseqSorted(a[1..], b[1..], le);
        SubseqMembers(a[1..], b[1..]);
        forall i, j | 0 <= i < j < |a| ensures le(a[i], a[j]) {
          assert a[j] == a[1..][j - 1];
          if i == 0 {
            var m :| 0 <= m < |b[1..]| && b[1..][m] == a[j];
            assert b[m + 1] == a[j];
          } else {
            assert a[i] == a[1..][i - 1];
          }
        }
      } else {
        SubseqSorted(a, b[1..], le);
      }
    }
  }

  /** `s.indexOf(x)`: the first position of `x`, or -1. */
  function IndexOf<T(==)>(s: seq<T>, x: T): (i: int)
    ensures -1 <= i < |s|
    ensures i == -1 <==> x !in s
    ensures 0 <= i ==> s[i] == x && x !in s[..i]
  {
    if s == [] then -1
    else if s[0] == x then 0
    else
      var j := IndexOf(s[1..], x);
      if j == -1 then -1
      else
        assert s[..j + 1] == [s[0]] + s[1..][..j];
        j + 1
  }

  /** The first occurrence is the position holding `x` with no `x` before it. */
  lemma IndexOfAt<T>(s: seq<T>, x: T, i: int)
    requires 0 <= i < |s| && s[i] == x && x !in s[..i]
    ensures IndexOf(s, x) == i
  {
    var j := IndexOf(s, x);
    assert x in s;
    InPrefix(s, i, j);
  }

  lemma InPrefix<T>(s: seq<T>, i: int, j: int)
    requires 0 <= i < |s| && 0 <= j <= |s|
    ensures i < j ==> s[i] in s[..j]
  {
    if i < j {
      assert s[..j][i] == s[i];
    }
  }

  /** In a duplicate-free sequence, the first position of an element is its position. */
  lemma IndexOfNoDup<T>(s: seq<T>, i: int)
    requires NoDup(s)
    requires 0 <= i < |s|
    ensures IndexOf(s, s[i]) == i
  {
    var j := IndexOf(s, s[i]);
    assert s[i] in s[..i + 1];
  }

  /** No element occurs twice. */
  predicate NoDup<T(==)>(s: seq<T>) {
    forall i, j :: 0 <= i < j < |s| ==> s[i] != s[j]
  }

  lemma {:induction false} NoDupCount<T>(s: seq<T>, x: T)
    requires NoDup(s)
    ensures multiset(s)[x] <= 1
  {
    if s != [] {
      NoDupCount(s[1..], x);
      assert s == [s[0]] + s[1..];
      if s[0] == x {
        assert x !in s[1..];
      }
    }
  }

  lemma {:induction false} CountNoDup<T>(s: seq<T>)
    requires forall x :: multiset(s)[x] <= 1
    ensures NoDup(s)
  {
    forall i, j | 0 <= i < j < |s|
      ensures s[i] != s[j]
    {
      if s[i] == s[j] {
        RepeatedCount(s, i, j);
        assert false;
      }
    }
  }

  lemma RepeatedCount<T>(s: seq<T>, i: int, j: int)
    requires 0 <= i < j < |s|
    requires s[i] == s[j]
    ensures multiset(s)[s[i]] >= 2
  {
    assert s == s[..i] + [s[i]] + s[i + 1..j] + [s[j]] + s[j + 1..];
  }

  /** Removing elements never creates a duplicate. */
  lemma FilterNoDup<T>(s: seq<T>, p: T -> bool)
    requires NoDup(s)
    ensures NoDup(Filter(s, p))
  {
    forall x ensures multiset(Filter(s, p))[x] <= 1 {
      FilterCount(s, p, x);
      NoDupCount(s, x);
    }
    CountNoDup(Filter(s, p));
  }

  /** `le` is a total preorder: the comparator a stable sort needs. */
  ghost predicate TotalPreorder<T(!new)>(le: (T, T) -> bool) {
    && (forall a, b :: le(a, b) || le(b, a))
    && (forall a, b, c :: le(a, b) && le(b, c) ==> le(a, c))
  }

  predicate Sorted<T>(s: seq<T>, le: (T, T) -> bool) {
    forall i, j :: 0 <= i < j < |s| ==> le(s[i], s[j])
  }

  /** Inserts `x` before the first element it does not exceed. */
  function Insert<T(!new)>(x: T, s: seq<T>, le: (T, T) -> bool): (r: seq<T>)
    requires TotalPreorder(le)
    requires Sorted(s, le)
    ensures Sorted(r, le)
    ensures multiset(r) == multiset(s) + multiset{x}
    ensures |r| == |s| + 1
    ensures r[0] == x || (s != [] && r[0] == s[0])
  {
    if s == [] then [x]
    else if le(x, s[0]) then
      BelowFirst(x, s, le);
      SortedCons(x, s, le);
      [x] + s
    else
      var y, t := s[0], s[1..];
      assert s == [y] + t;
      SortedTail(y, t, le);
      var rest := Insert(x, t, le);
      InsertAbove(x, y, t, rest, le);
      SortedCons(y, rest, le);
      [y] + rest
  }

  /** What precedes the first element of a sorted sequence precedes all of it. */
  lemma BelowFirst<T(!new)>(x: T, s: seq<T>, le: (T, T) -> bool)
    requires TotalPreorder(le)
    requires Sorted(s, le) && s != [] && le(x, s[0])
    ensures forall z :: z in s ==> le(x, z)
  {
    forall z | z in s ensures le(x, z) {
      var m :| 0 <= m < |s| && s[m] == z;
      if m > 0 {
        assert le(s[0], s[m]);
      }
    }
  }

  lemma SortedTail<T>(y: T, t: seq<T>, le: (T, T) -> bool)
    requires Sorted([y] + t, le)
    ensures Sorted(t, le) && forall z :: z in t ==> le(y, z)
  {
    var s := [y] + t;
    forall i, j | 0 <= i < j < |t| ensures le(t[i], t[j]) {
      assert s[i + 1] == t[i] && s[j + 1] == t[j];
    }
    forall z | z in t ensures le(y, z) {
      var m :| 0 <= m < |t| && t[m] == z;
      assert s[0] == y && s[m + 1] == z;
      assert le(s[0], s[m + 1]);
    }
  }

  lemma SortedCons<T>(y: T, r: seq<T>, le: (T, T) -> bool)
    requires Sorted(r, le) && forall z :: z in r ==> le(y, z)
    ensures Sorted([y] + r, le)
  {
    var s := [y] + r;
    forall i, j | 0 <= i < j < |s| ensures le(s[i], s[j]) {
      assert s[j] == r[j - 1] && r[j - 1] in r;
      if i > 0 {
        assert s[i] == r[i - 1];
      }
    }
  }

  /** What `x` is inserted among stays above an element `x` does not precede. */
  lemma InsertAbove<T(!new)>(x: T, y: T, t: seq<T>, rest: seq<T>, le: (T, T) -> bool)
    requires TotalPreorder(le)
    requires forall z :: z in t ==> le(y, z)
    requires !le(x, y)
    requires multiset(rest) == multiset(t) + multiset{x}
    ensures forall z :: z in rest ==> le(y, z)
  {
    forall z | z in rest ensures le(y, z) {
      assert z in multiset(rest);
      if z != x {
        assert z in multiset(t);
      }
    }
  }

  /** Stable insertion sort: `Array.prototype.sort` with a consistent comparator. */
  function SortBy<T(!new)>(s: seq<T>, le: (T, T) -> bool): (r: seq<T>)
    requires TotalPreorder(le)
    ensures Sorted(r, le)
    ensures multiset(r) == multiset(s)
    ensures |r| == |s|
  {
    if s == [] then []
    else
      assert s == [s[0]] + s[1..];
      Insert(s[0], SortBy(s[1..], le), le)
  }

  /** Sorting an already sorted sequence changes nothing. */
  lemma {:induction false} SortSortedIsIdentity<T(!new)>(s: seq<T>, le: (T, T) -> bool)
    requires TotalPreorder(le)
    requires Sorted(s, le)
    ensures SortBy(s, le) == s
  {
    if s != [] {
      var x, t := s[0], s[1..];
      assert s == [x] + t;
      SortedTail(x, t, le);
      SortSortedIsIdentity(t, le);
      InsertFront(x, t, le);
    }
  }

  /** No two different elements of `s` are ranked equal by `le`. */
  ghost predicate NoTies<T>(s: seq<T>, le: (T, T) -> bool) {
    forall i, j :: 0 <= i < |s| && 0 <= j < |s| && le(s[i], s[j]) && le(s[j], s[i]) ==> s[i] == s[j]
  }

  /** When nothing ties, the contents fix the sorted order: two sorted arrangements of the
      same elements are one and the same sequence. */
  lemma {:induction false} SortedPermutationUnique<T(!new)>(a: seq<T>, b: seq<T>, le: (T, T) -> bool)
    requires TotalPreorder(le)
    requires Sorted(a, le) && Sorted(b, le)
    requires multiset(a) == multiset(b)
    requires NoTies(a, le)
    ensures a == b
  {
    if a != [] {
      var x, ta, tb := a[0], a[1..], b[1..];
      assert b != [] by { assert x in multiset(b); }
      SortedFirstIsLeast(a, b[0], le);
      SortedFirstIsLeast(b, x, le);
      assert b[0] in a by { assert b[0] in multiset(a); }
      NoTiesAt(a, b[0], le);
      SortedTail(x, ta, le);
      SortedTail(x, tb, le);
      SameTails(a, b);
      NoTiesTail(a, le);
      SortedPermutationUnique(ta, tb, le);
      assert a == [x] + ta && b == [x] + tb;
    }
  }

  /** The first element of a sorted sequence precedes every element. */
  lemma SortedFirstIsLeast<T(!new)>(a: seq<T>, z: T, le: (T, T) -> bool)
    requires TotalPreorder(le)
    requires Sorted(a, le) && z in multiset(a)
    ensures a != [] && le(a[0], z)
  {
    assert z in a;
    var i :| 0 <= i < |a| && a[i] == z;
    if i == 0 {
      assert le(z, z) || le(z, z);
    } else {
      assert le(a[0], a[i]);
    }
  }

  /** An element tied with the first element of a tie-free sequence is that element. */
  lemma NoTiesAt<T>(a: seq<T>, z: T, le: (T, T) -> bool)
    requires NoTies(a, le) && a != [] && z in a
    requires le(a[0], z) && le(z, a[0])
    ensures z == a[0]
  {
    var i :| 0 <= i < |a| && a[i] == z;
  }

  lemma NoTiesTail<T>(a: seq<T>, le: (T, T) -> bool)
    requires NoTies(a, le) && a != []
    ensures NoTies(a[1..], le)
  {
    var t := a[1..];
    forall m, n | 0 <= m < |t| && 0 <= n < |t| && le(t[m], t[n]) && le(t[n], t[m])
      ensures t[m] == t[n]
    {
      assert t[m] == a[m + 1] && t[n] == a[n + 1];
    }
  }

  /** Equal contents and equal first elements leave equal contents behind. */
  lemma SameTails<T>(a: seq<T>, b: seq<T>)
    requires a != [] && b != [] && a[0] == b[0]
    requires multiset(a) == multiset(b)
    ensures multiset(a[1..]) == multiset(b[1..])
  {
    assert a == [a[0]] + a[1..];
    assert b == [b[0]] + b[1..];
    assert multiset(a[1..]) == multiset(a) - multiset{a[0]};
    assert multiset(b[1..]) == multiset(b) - multiset{a[0]};
  }

  /** An element that precedes everything is inserted at the front. */
  lemma InsertFront<T(!new)>(x: T, t: seq<T>, le: (T, T) -> bool)
    requires TotalPreorder(le)
    requires Sorted(t, le) && forall z :: z in t ==> le(x, z)
    ensures Insert(x, t, le) == [x] + t
  {
    if t != [] {
      assert t[0] in t;
    }
  }

  /** Elements the comparator cannot tell apart from `k`. */
  function TiedWith<T>(le: (T, T) -> bool, k: T): T -> bool {
    y => le(y, k) && le(k, y)
  }

  /** An element that `x` strictly exceeds is never tied with `k` together with `x`. */
  lemma StrictlyBelowNotTied<T(!new)>(le: (T, T) -> bool, k: T, x: T, y: T)
    requires TotalPreorder(le)
    requires !le(x, y)
    ensures !(TiedWith(le, k)(y) && TiedWith(le, k)(x))
  {
  }

  lemma {:induction false} InsertStable<T(!new)>(x: T, s: seq<T>, le: (T, T) -> bool, k: T)
    requires TotalPreorder(le)
    requires Sorted(s, le)
    ensures Filter(Insert(x, s, le), TiedWith(le, k)) == Filter([x] + s, TiedWith(le, k))
  {
    var p := TiedWith(le, k);
    if s != [] && !le(x, s[0]) {
      var y, t := s[0], s[1..];
      var rest := Insert(x, t, le);
      assert s == [y] + t;
      calc {
        Filter(Insert(x, s, le), p);
        Filter([y] + rest, p);
        { FilterAppend([y], rest, p); }
        Filter([y], p) + Filter(rest, p);
        { InsertStable(x, t, le, k); }
        Filter([y], p) + Filter([x] + t, p);
        { FilterAppend([y], [x] + t, p); }
        Filter([y] + ([x] + t), p);
        { StrictlyBelowNotTied(le, k, x, y); SwapFilter(x, y, t, p); }
        Filter([x] + ([y] + t), p);
        Filter([x] + s, p);
      }
    }
  }

  /** Two adjacent elements that do not both pass a filter may be swapped under it. */
  lemma SwapFilter<T>(x: T, y: T, t: seq<T>, p: T -> bool)
    requires !(p(y) && p(x))
    ensures Filter([y] + ([x] + t), p) == Filter([x] + ([y] + t), p)
  {
    FilterCons(x, t, p);
    FilterCons(y, t, p);
    FilterCons(y, [x] + t, p);
    FilterCons(x, [y] + t, p);
  }

  /** Filtering a sequence given by its first element and the rest. */
  lemma FilterCons<T>(x: T, t: seq<T>, p: T -> bool)
    ensures p(x) ==> Filter([x] + t, p) == [x] + Filter(t, p)
    ensures !p(x) ==> Filter([x] + t, p) == Filter(t, p)
  {
    assert ([x] + t)[1..] == t;
  }

  /** Stability: elements with equal keys keep their input order. */
  lemma {:induction false} SortStable<T(!new)>(s: seq<T>, le: (T, T) -> bool, k: T)
    requires TotalPreorder(le)
    ensures Filter(SortBy(s, le), TiedWith(le, k)) == Filter(s, TiedWith(le, k))
  {
    if s != [] {
      var p := TiedWith(le, k);
      var x, t := s[0], s[1..];
      assert s == [x] + t;
      SortStable(t, le, k);
      InsertStable(x, SortBy(t, le), le, k);
      FilterCons(x, SortBy(t, le), p);
      FilterCons(x, t, p);
    }
  }

  /** Sum of a sequence of integers. */
  function SumInts(s: seq<int>): int {
    if s == [] then 0 else s[0] + SumInts(s[1..])
  }

  lemma {:induction false} SumIntsAppend(a: seq<int>, b: seq<int>)
    ensures SumInts(a + b) == SumInts(a) + SumInts(b)
  {
    if a == [] {
      assert a + b == b;
    } else {
      assert (a + b)[1..] == a[1..] + b;
      SumIntsAppend(a[1..], b);
    }
  }
}
