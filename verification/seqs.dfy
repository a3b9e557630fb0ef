/** Sequence and set utilities shared by the table transformations and the
    tree builder: order-preserving filtering, subsequences, duplicate removal
    and integer ranges. */
module Seqs {

  /** `a` can be obtained from `b` by deleting elements (order is kept). */
  predicate IsSubseq<T(==)>(a: seq<T>, b: seq<T>)
    decreases |b|
  {
    if a == [] then true
    else if b == [] then false
    else if a[0] == b[0] then IsSubseq(a[1..], b[1..])
    else IsSubseq(a, b[1..])
  }

  predicate IsPrefix<T(==)>(a: seq<T>, b: seq<T>) {
    |a| <= |b| && b[..|a|] == a
  }

  predicate Distinct<T(==)>(s: seq<T>) {
    forall i, j | 0 <= i < j < |s| :: s[i] != s[j]
  }

  predicate Increasing(s: seq<int>) {
    forall i, j | 0 <= i < j < |s| :: s[i] < s[j]
  }

  /** The elements of `s` that satisfy `p`, in their original order. */
  function Filter<T(!new)>(p: T -> bool, s: seq<T>): (r: seq<T>)
    ensures |r| <= |s|
    ensures forall i | 0 <= i < |r| :: p(r[i])
  {
    if s == [] then []
    else
      var rest := Filter(p, s[1..]);
      assert s == [s[0]] + s[1..];
      if p(s[0]) then [s[0]] + rest else rest
  }

  /** An element survives filtering exactly when it occurs and satisfies `p`. */
  lemma {:induction false} FilterMembership<T(!new)>(p: T -> bool, s: seq<T>)
    ensures forall x :: x in Filter(p, s) <==> x in s && p(x)
  {
    if s != [] {
      FilterMembership(p, s[1..]);
      assert s == [s[0]] + s[1..];
    }
  }

  /** Nothing survives filtering exactly when no element satisfies `p`. */
  lemma {:induction false} FilterEmpty<T(!new)>(p: T -> bool, s: seq<T>)
    ensures Filter(p, s) == [] <==> forall i | 0 <= i < |s| :: !p(s[i])
  {
    if s != [] {
      FilterEmpty(p, s[1..]);
      assert forall i | 1 <= i < |s| :: s[i] == s[1..][i - 1];
    }
  }

  /** Filtering keeps every satisfying element as often as it occurs and
      drops the others. */
  lemma {:induction false} FilterMultiset<T(!new)>(p: T -> bool, s: seq<T>)
    ensures forall x :: multiset(Filter(p, s))[x] == if p(x) then multiset(s)[x] else 0
  {
    if s != [] {
      FilterMultiset(p, s[1..]);
      assert s == [s[0]] + s[1..];
    }
  }

  /** Filtering keeps the relative order of the kept elements. */
  lemma {:induction false} FilterSubseq<T(!new)>(p: T -> bool, s: seq<T>)
    ensures IsSubseq(Filter(p, s), s)
  {
    if s != [] {
      FilterSubseq(p, s[1..]);
      var rest := Filter(p, s[1..]);
      if p(s[0]) {
        assert ([s[0]] + rest)[1..] == rest;
      } else {
        SubseqCons(rest, s);
      }
    }
  }

  /** When every element satisfies `p`, filtering changes nothing. */
  lemma {:induction false} FilterAll<T(!new)>(p: T -> bool, s: seq<T>)
    requires forall i | 0 <= i < |s| :: p(s[i])
    ensures Filter(p, s) == s
  {
    if s != [] {
      assert forall i | 0 <= i < |s[1..]| :: s[1..][i] == s[i + 1];
      FilterAll(p, s[1..]);
      assert s == [s[0]] + s[1..];
    }
  }

  /** Filters that agree on the elements of `s` select the same elements. */
  lemma {:induction false} FilterCongruent<T(!new)>(p: T -> bool, q: T -> bool, s: seq<T>)
    requires forall i | 0 <= i < |s| :: p(s[i]) == q(s[i])
    ensures Filter(p, s) == Filter(q, s)
  {
    if s != [] {
      assert forall i | 0 <= i < |s[1..]| :: s[1..][i] == s[i + 1];
      FilterCongruent(p, q, s[1..]);
    }
  }

  /** Two filters applied one after the other commute. */
  lemma {:induction false} FilterCommute<T(!new)>(p: T -> bool, q: T -> bool, s: seq<T>)
    ensures Filter(p, Filter(q, s)) == Filter(q, Filter(p, s))
  {
    if s != [] {
      FilterCommute(p, q, s[1..]);
      var qs, ps := Filter(q, s[1..]), Filter(p, s[1..]);
      assert ([s[0]] + qs)[1..] == qs;
      assert ([s[0]] + ps)[1..] == ps;
    }
  }

  lemma {:induction false} FilterIdempotent<T(!new)>(p: T -> bool, s: seq<T>)
    ensures Filter(p, Filter(p, s)) == Filter(p, s)
  {
    if s != [] {
      FilterIdempotent(p, s[1..]);
      var rest := Filter(p, s[1..]);
      if p(s[0]) {
        assert ([s[0]] + rest)[1..] == rest;
      }
    }
  }

  /** Prepending an element to the longer sequence keeps a subsequence. */
  lemma {:induction false} SubseqCons<T>(x: seq<T>, c: seq<T>)
    requires c != [] && IsSubseq(x, c[1..])
    ensures IsSubseq(x, c)
    decreases |c|, 0
  {
    if x != [] && x[0] == c[0] {
      SubseqTail(x, c[1..]);
    }
  }

  /** Dropping the head of the shorter sequence keeps a subsequence. */
  lemma {:induction false} SubseqTail<T>(a: seq<T>, c: seq<T>)
    requires a != [] && IsSubseq(a, c)
    ensures IsSubseq(a[1..], c)
    decreases |c|, 1
  {
    if a[0] == c[0] {
      SubseqCons(a[1..], c);
    } else {
      SubseqTail(a, c[1..]);
      SubseqCons(a[1..], c);
    }
  }

  lemma {:induction false} SubseqTrans<T>(a: seq<T>, b: seq<T>, c: seq<T>)
    requires IsSubseq(a, b) && IsSubseq(b, c)
    ensures IsSubseq(a, c)
    decreases |c|
  {
    if a != [] && c != [] {
      if b[0] == c[0] {
        if a[0] == b[0] {
          SubseqTrans(a[1..], b[1..], c[1..]);
        } else {
          SubseqTrans(a, b[1..], c[1..]);
        }
      } else {
        SubseqTrans(a, b, c[1..]);
        if a[0] == c[0] {
          SubseqTail(a, c[1..]);
        }
      }
    }
  }

  lemma IncreasingConcat(a: seq<int>, b: seq<int>)
    requires Increasing(a) && Increasing(b)
    requires forall i, j | 0 <= i < |a| && 0 <= j < |b| :: a[i] < b[j]
    ensures Increasing(a + b)
  {
    forall i, j | 0 <= i < j < |a + b|
      ensures (a + b)[i] < (a + b)[j]
    {
      if j < |a| {
      } else if i >= |a| {
        assert (a + b)[i] == b[i - |a|] && (a + b)[j] == b[j - |a|];
      } else {
        assert (a + b)[j] == b[j - |a|];
      }
    }
  }

  /** Without repeats, the head does not recur and the tail has no repeats. */
  lemma DistinctTail<T>(s: seq<T>)
    requires s != [] && Distinct(s)
    ensures s[0] !in s[1..] && Distinct(s[1..])
  {
  }

  /** Keeps the first occurrence of every element and drops later copies. */
  function DropDuplicates<T(==,!new)>(s: seq<T>): (r: seq<T>)
    ensures Distinct(r)
    ensures forall x :: x in r <==> x in s
    ensures IsSubseq(r, s)
    ensures |r| <= |s|
    ensures s != [] ==> |r| > 0 && r[0] == s[0]
    decreases |s|
  {
    if s == [] then []
    else
      var later := Filter(x => x != s[0], s[1..]);
      var rest := DropDuplicates(later);
      FilterSubseq(x => x != s[0], s[1..]);
      FilterMembership(x => x != s[0], s[1..]);
      DropDuplicatesStep(s, later, rest);
      [s[0]] + rest
  }

  lemma DropDuplicatesStep<T(!new)>(s: seq<T>, later: seq<T>, rest: seq<T>)
    requires s != []
    requires forall x :: x in later <==> x in s[1..] && x != s[0]
    requires IsSubseq(later, s[1..])
    requires Distinct(rest) && IsSubseq(rest, later)
    requires forall x :: x in rest <==> x in later
    ensures Distinct([s[0]] + rest)
    ensures forall x :: x in [s[0]] + rest <==> x in s
    ensures IsSubseq([s[0]] + rest, s)
  {
    SubseqTrans(rest, later, s[1..]);
    var r := [s[0]] + rest;
    assert r[0] == s[0] && r[1..] == rest;
    assert s == [s[0]] + s[1..];
    forall i, j | 0 <= i < j < |r|
      ensures r[i] != r[j]
    {
      if i == 0 {
        assert r[j] == rest[j - 1] && r[j] in later;
      } else {
        assert r[i] == rest[i - 1] && r[j] == rest[j - 1];
      }
    }
  }

  lemma ConcatAssoc<T>(a: seq<T>, b: seq<T>, c: seq<T>)
    ensures (a + b) + c == a + (b + c)
  {
  }

  /** The integers lo, lo+1, ..., hi-1 in increasing order. */
  function Interval(lo: nat, hi: nat): (r: seq<nat>)
    ensures |r| == if lo <= hi then hi - lo else 0
    ensures forall i | 0 <= i < |r| :: r[i] == lo + i
    decreases hi - lo
  {
    if lo >= hi then [] else [lo] + Interval(lo + 1, hi)
  }

  /** The interval holds exactly the numbers from `lo` below `hi`, rising. */
  lemma IntervalMembership(lo: nat, hi: nat)
    ensures forall x :: x in Interval(lo, hi) <==> lo <= x < hi
    ensures Increasing(Interval(lo, hi))
  {
    var r := Interval(lo, hi);
    forall x | lo <= x < hi
      ensures x in r
    {
      assert r[x - lo] == x;
    }
  }

  /** The naturals lo, lo+1, ..., hi-1 as a set. */
  function Range(lo: nat, hi: nat): (r: set<nat>)
    ensures forall k :: k in r <==> lo <= k < hi
    decreases hi - lo
  {
    if lo >= hi then {} else {lo} + Range(lo + 1, hi)
  }

  /** A strict upper bound of a finite set of naturals. */
  ghost function Top(s: set<nat>): (r: nat)
    ensures forall x | x in s :: x < r
    decreases s
  {
    if s == {} then 0
    else
      var x :| x in s;
      var r' := Top(s - {x});
      assert forall y | y in s && y != x :: y in s - {x};
      if x < r' then r' else x + 1
  }
}
