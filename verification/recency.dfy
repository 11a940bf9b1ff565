/**
  Snapshot ordering: every table snapshot is the table's rows sorted by
  `lastUpdated`, newest first. The comparator is `b - a` on the two
  timestamps and `Array.prototype.sort` is stable, so rows with equal
  timestamps keep the order in which the table lists them.
 */
module Recency {
  import opened Records
  import opened Seqs

  /** Newest first: timestamps never increase along `s`. */
  ghost predicate NewestFirst<F>(s: seq<Row<F>>)
  {
    forall i, j | 0 <= i < j < |s| :: s[i].lastUpdated >= s[j].lastUpdated
  }

  /** Places `x` before the first row of `s` that is not strictly newer than it. */
  function Insert<F(==)>(x: Row<F>, s: seq<Row<F>>): (r: seq<Row<F>>)
    requires NewestFirst(s)
    ensures NewestFirst(r)
    ensures multiset(r) == multiset(s) + multiset{x}
    ensures forall i | 0 <= i < |r| :: r[i] == x || r[i] in s
  {
    if |s| == 0 then [x]
    else if x.lastUpdated >= s[0].lastUpdated then [x] + s
    else
      assert s == [s[0]] + s[1..];
      var rest := Insert(x, s[1..]);
      assert forall i | 0 <= i < |rest| :: s[0].lastUpdated >= rest[i].lastUpdated;
      [s[0]] + rest
  }

  /** The snapshot of a table: its rows, newest first, ties in table order. */
  function SortByLastUpdated<F(==)>(s: seq<Row<F>>): (r: seq<Row<F>>)
    ensures NewestFirst(r)
    ensures multiset(r) == multiset(s)
  {
    if |s| == 0 then []
    else
      assert s == [s[0]] + s[1..];
      Insert(s[0], SortByLastUpdated(s[1..]))
  }

  /** Sorting keeps the rows: same length, same members. */
  lemma SortKeepsRows<F>(s: seq<Row<F>>)
    ensures |SortByLastUpdated(s)| == |s|
    ensures forall x :: x in SortByLastUpdated(s) <==> x in s
  {
    var r := SortByLastUpdated(s);
    assert |multiset(r)| == |multiset(s)|;
    forall x ensures x in r <==> x in s {
      assert x in r <==> x in multiset(r);
      assert x in s <==> x in multiset(s);
    }
  }

  /** A sequence already newest first is its own snapshot: sorting is idempotent. */
  lemma {:induction false} SortSorted<F>(s: seq<Row<F>>)
    requires NewestFirst(s)
    ensures SortByLastUpdated(s) == s
  {
    if |s| > 0 {
      SortSorted(s[1..]);
      assert s == [s[0]] + s[1..];
    }
  }

  lemma SortIdempotent<F>(s: seq<Row<F>>)
    ensures SortByLastUpdated(SortByLastUpdated(s)) == SortByLastUpdated(s)
  {
    SortSorted(SortByLastUpdated(s));
  }

  /** The rows carrying timestamp `t`. */
  function StampIs<F>(t: int): Row<F> -> bool
  {
    (x: Row<F>) => x.lastUpdated == t
  }

  /** Two filter results, one of which is empty, commute. */
  lemma SwapEmpty<T>(a: seq<T>, b: seq<T>, c: seq<T>)
    requires a == [] || b == []
    ensures a + (b + c) == b + (a + c)
  {
  }

  lemma {:induction false} InsertStable<F(!new)>(x: Row<F>, s: seq<Row<F>>, t: int)
    requires NewestFirst(s)
    ensures Filter(Insert(x, s), StampIs(t)) == (if x.lastUpdated == t then [x] else []) + Filter(s, StampIs(t))
  {
    var p := StampIs<F>(t);
    if |s| == 0 {
      FilterCons(x, [], p);
    } else if x.lastUpdated >= s[0].lastUpdated {
      FilterCons(x, s, p);
    } else {
      InsertStable(x, s[1..], t);
      InsertBehindStable(x, s, t);
    }
  }

  /** A row older than the head of `s` is inserted into the tail. */
  lemma InsertBehind<F>(x: Row<F>, s: seq<Row<F>>)
    requires NewestFirst(s) && |s| > 0 && x.lastUpdated < s[0].lastUpdated
    ensures Insert(x, s) == [s[0]] + Insert(x, s[1..])
  {
  }

  lemma InsertBehindStable<F(!new)>(x: Row<F>, s: seq<Row<F>>, t: int)
    requires NewestFirst(s) && |s| > 0 && x.lastUpdated < s[0].lastUpdated
    requires Filter(Insert(x, s[1..]), StampIs(t)) == (if x.lastUpdated == t then [x] else []) + Filter(s[1..], StampIs(t))
    ensures Filter(Insert(x, s), StampIs(t)) == (if x.lastUpdated == t then [x] else []) + Filter(s, StampIs(t))
  {
    assert s == [s[0]] + s[1..];
    var p := StampIs<F>(t);
    var rest := Insert(x, s[1..]);
    var hx: seq<Row<F>> := if x.lastUpdated == t then [x] else [];
    var h0: seq<Row<F>> := if s[0].lastUpdated == t then [s[0]] else [];
    InsertBehind(x, s);
    FilterCons(s[0], rest, p);
    FilterCons(s[0], s[1..], p);
    SwapEmpty(h0, hx, Filter(s[1..], p));
  }

  /**
    Stability: among rows with any one timestamp, the snapshot keeps the
    order the table lists them in.
   */
  lemma {:induction false} SortStable<F(!new)>(s: seq<Row<F>>, t: int)
    ensures Filter(SortByLastUpdated(s), StampIs(t)) == Filter(s, StampIs(t))
  {
    if |s| > 0 {
      SortStable(s[1..], t);
      InsertStable(s[0], SortByLastUpdated(s[1..]), t);
    }
  }

  lemma {:induction false} InsertDistinct<F>(x: Row<F>, s: seq<Row<F>>)
    requires NewestFirst(s) && DistinctIds(s)
    requires forall i | 0 <= i < |s| :: s[i].id != x.id
    ensures DistinctIds(Insert(x, s))
  {
    if |s| > 0 && x.lastUpdated < s[0].lastUpdated {
      InsertDistinct(x, s[1..]);
      var r := Insert(x, s[1..]);
      assert multiset(r) == multiset(s[1..]) + multiset{x};
      forall i | 0 <= i < |r| ensures r[i].id != s[0].id {
        assert r[i] in multiset(r);
        if r[i] != x {
          assert r[i] in multiset(s[1..]);
          var j :| 0 <= j < |s[1..]| && s[1..][j] == r[i];
          assert s[j + 1] == r[i];
        }
      }
    }
  }

  /** A snapshot of rows with distinct keys has distinct keys. */
  lemma {:induction false} SortDistinct<F>(s: seq<Row<F>>)
    requires DistinctIds(s)
    ensures DistinctIds(SortByLastUpdated(s))
  {
    if |s| > 0 {
      SortDistinct(s[1..]);
      var r := SortByLastUpdated(s[1..]);
      forall i | 0 <= i < |r| ensures r[i].id != s[0].id {
        assert r[i] in multiset(r);
        assert r[i] in multiset(s[1..]);
        var j :| 0 <= j < |s[1..]| && s[1..][j] == r[i];
        assert s[j + 1] == r[i];
      }
      InsertDistinct(s[0], r);
    }
  }
}
