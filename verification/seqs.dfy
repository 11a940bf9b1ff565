/**
  The array operations the cache layer relies on, as functions over sequences:
  `Array.prototype.find` and `Array.prototype.filter`, with the
  subsequence relation that states what `filter` keeps.
 */
module Seqs {
  import opened Basics

  /** `a` is obtained from `b` by deleting elements, keeping the order. */
  ghost predicate IsSubsequence<T>(a: seq<T>, b: seq<T>)
    decreases |b|
  {
    if |a| == 0 then true
    else if |b| == 0 then false
    else (a[0] == b[0] && IsSubsequence(a[1..], b[1..])) || IsSubsequence(a, b[1..])
  }

  /** Index of the first element satisfying `p`, if any. */
  function FindIndex<T>(s: seq<T>, p: T -> bool): (r: Option<nat>)
    ensures r.None? <==> forall i | 0 <= i < |s| :: !p(s[i])
    ensures r.Some? ==> r.value < |s| && p(s[r.value])
    ensures r.Some? ==> forall j | 0 <= j < r.value :: !p(s[j])
  {
    if |s| == 0 then None
    else if p(s[0]) then Some(0)
    else match FindIndex(s[1..], p)
      case None => None
      case Some(i) => Some(i + 1)
  }

  /** `Array.prototype.find`: the first element satisfying `p`, or absent. */
  function Find<T>(s: seq<T>, p: T -> bool): (r: Option<T>)
    ensures r.None? <==> forall i | 0 <= i < |s| :: !p(s[i])
    ensures r.Some? ==> exists i | 0 <= i < |s| ::
      s[i] == r.value && p(s[i]) && forall j | 0 <= j < i :: !p(s[j])
  {
    match FindIndex(s, p)
    case None => None
    case Some(i) => Some(s[i])
  }

  /** `Array.prototype.filter`: the elements satisfying `p`, in order. */
  function Filter<T(==,!new)>(s: seq<T>, p: T -> bool): (r: seq<T>)
    ensures IsSubsequence(r, s)
    ensures forall i | 0 <= i < |r| :: p(r[i])
    ensures forall x :: multiset(r)[x] == if p(x) then multiset(s)[x] else 0
  {
    if |s| == 0 then []
    else
      assert s == [s[0]] + s[1..];
      if p(s[0]) then [s[0]] + Filter(s[1..], p) else Filter(s[1..], p)
  }

  /** When the elements sought are unique, `Find` returns exactly the one that matches. */
  lemma {:induction false} FindUnique<T>(s: seq<T>, p: T -> bool, x: T)
    requires x in s && p(x)
    requires forall i, j | 0 <= i < |s| && 0 <= j < |s| && p(s[i]) && p(s[j]) :: i == j
    ensures Find(s, p) == Some(x)
  {
    var k :| 0 <= k < |s| && s[k] == x;
    var r := Find(s, p);
    assert r.Some? by { assert p(s[k]); }
    var i :| 0 <= i < |s| && s[i] == r.value && p(s[i]);
    assert i == k;
  }

  lemma {:induction false} SubsequenceCounts<T>(a: seq<T>, b: seq<T>)
    requires IsSubsequence(a, b)
    ensures multiset(a) <= multiset(b)
    decreases |b|
  {
    if |a| == 0 {
    } else {
      assert b == [b[0]] + b[1..];
      if a[0] == b[0] && IsSubsequence(a[1..], b[1..]) {
        SubsequenceCounts(a[1..], b[1..]);
        assert a == [a[0]] + a[1..];
      } else {
        SubsequenceCounts(a, b[1..]);
      }
    }
  }

  /**
    `Filter`'s contract determines its result: any subsequence of `s` whose
    elements all satisfy `p` and that keeps every satisfying occurrence is
    `Filter(s, p)`.
   */
  lemma {:induction false} FilterUnique<T(!new)>(s: seq<T>, p: T -> bool, r: seq<T>)
    requires IsSubsequence(r, s)
    requires forall i | 0 <= i < |r| :: p(r[i])
    requires forall x :: multiset(r)[x] == if p(x) then multiset(s)[x] else 0
    ensures r == Filter(s, p)
    decreases |s|
  {
    if |s| == 0 {
    } else {
      assert s == [s[0]] + s[1..];
      var a := s[0];
      if |r| > 0 && r[0] == a && IsSubsequence(r[1..], s[1..]) {
        assert r == [r[0]] + r[1..];
        assert p(r[0]);
        forall x ensures multiset(r[1..])[x] == if p(x) then multiset(s[1..])[x] else 0 {
          assert multiset(r)[x] == multiset(r[1..])[x] + multiset([a])[x];
          assert multiset(s)[x] == multiset(s[1..])[x] + multiset([a])[x];
        }
        FilterUnique(s[1..], p, r[1..]);
      } else {
        assert IsSubsequence(r, s[1..]);
        SubsequenceCounts(r, s[1..]);
        assert !p(a);
        forall x ensures multiset(r)[x] == if p(x) then multiset(s[1..])[x] else 0 {
          assert multiset(s)[x] == multiset(s[1..])[x] + multiset([a])[x];
        }
        FilterUnique(s[1..], p, r);
      }
    }
  }

  /** `Filter` on a sequence with a known first element. */
  lemma FilterCons<T(!new)>(a: T, s: seq<T>, p: T -> bool)
    ensures Filter([a] + s, p) == (if p(a) then [a] else []) + Filter(s, p)
  {
    assert ([a] + s)[1..] == s;
  }

  /** Filtering a sequence whose every element satisfies `p` changes nothing. */
  lemma {:induction false} FilterAll<T(!new)>(s: seq<T>, p: T -> bool)
    requires forall i | 0 <= i < |s| :: p(s[i])
    ensures Filter(s, p) == s
  {
    if |s| > 0 {
      FilterAll(s[1..], p);
    }
  }
}
