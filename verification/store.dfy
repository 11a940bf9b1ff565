/**
  One table of the local store, as the key-ordered list of its rows, and
  the three writes the cache layer issues against it: `add` (insert a row
  whose key must be new), `put` (insert or overwrite by key) and the
  `clear` + `bulkPut` pair a reload runs inside one transaction.
 */
module Store {
  import opened Basics
  import opened Records

  /** Why a write to the store was refused. */
  datatype StoreError =
    | KeyExists(key: int)  // `add` of a row whose primary key is already present
    | StorageFault         // any other failure of the underlying storage

  /** `put`: the row replaces the row with the same key, or joins the table. */
  function Put<F>(t: Table<F>, x: Row<F>): (r: Table<F>)
    ensures x in r
    ensures forall i | 0 <= i < |r| :: r[i] == x || (r[i] in t && r[i].id != x.id)
    ensures forall i | 0 <= i < |t| && t[i].id != x.id :: t[i] in r
  {
    if |t| == 0 then [x]
    else if x.id < t[0].id then [x] + t
    else if x.id == t[0].id then
      assert forall i | 0 <= i < |t| && t[i].id != x.id :: 0 < i && t[i] == t[1..][i - 1];
      [x] + t[1..]
    else
      PutBehind(t, x, Put(t[1..], x));
      [t[0]] + Put(t[1..], x)
  }

  /** The step of `Put` that keeps the first row and puts into the rest. */
  lemma PutBehind<F>(t: Table<F>, x: Row<F>, rest: Table<F>)
    requires |t| > 0 && t[0].id < x.id
    requires x in rest
    requires forall i | 0 <= i < |rest| :: rest[i] == x || (rest[i] in t[1..] && rest[i].id != x.id)
    requires forall i | 0 <= i < |t[1..]| && t[1..][i].id != x.id :: t[1..][i] in rest
    ensures KeyOrdered([t[0]] + rest)
    ensures forall i | 0 <= i < |[t[0]] + rest| :: ([t[0]] + rest)[i] == x || (([t[0]] + rest)[i] in t && ([t[0]] + rest)[i].id != x.id)
    ensures forall i | 0 <= i < |t| && t[i].id != x.id :: t[i] in [t[0]] + rest
  {
    var r := [t[0]] + rest;
    forall i | 0 <= i < |rest| ensures t[0].id < rest[i].id {
      if rest[i] != x {
        var j :| 0 <= j < |t[1..]| && t[1..][j] == rest[i];
        assert t[j + 1] == rest[i];
      }
    }
    forall i | 0 <= i < |t| && t[i].id != x.id ensures t[i] in r {
      if i > 0 {
        assert t[i] == t[1..][i - 1];
      }
    }
  }

  /** A `put` under a new key adds exactly one row. */
  lemma {:induction false} PutNewKey<F>(t: Table<F>, x: Row<F>)
    requires x.id !in Ids(t)
    ensures |Put(t, x)| == |t| + 1
  {
    if |t| > 0 && x.id > t[0].id {
      assert forall i | 0 <= i < |t[1..]| :: t[1..][i] == t[i + 1];
      PutNewKey(t[1..], x);
    }
  }

  /** `add`: a storage fault, or a key already present, refuses the write. */
  function Add<F>(t: Table<F>, x: Row<F>, fault: bool): (r: Result<Table<F>, StoreError>)
    ensures r.Failure? <==> fault || x.id in Ids(t)
    ensures r.Failure? && fault ==> r.error == StorageFault
    ensures r.Failure? && !fault ==> r.error == KeyExists(x.id)
    ensures r.Success? ==> Inserted(t, r.value, x)
  {
    if fault then Failure(StorageFault)
    else if x.id in Ids(t) then Failure(KeyExists(x.id))
    else
      PutNewKey(t, x);
      Success(Put(t, x))
  }

  /** No later row of `rows` has the key of `rows[i]`. */
  ghost predicate LastWithItsId<F>(rows: seq<Row<F>>, i: int)
    requires 0 <= i < |rows|
  {
    forall j | i < j < |rows| :: rows[j].id != rows[i].id
  }

  /** `bulkPut`: the rows are put one after the other, so the last row with a given key wins. */
  function BulkPut<F>(t: Table<F>, rows: seq<Row<F>>): (r: Table<F>)
    ensures forall y | y in r :: y in rows || (y in t && y.id !in Ids(rows))
    ensures forall y | y in t && y.id !in Ids(rows) :: y in r
    ensures forall i | 0 <= i < |rows| && LastWithItsId(rows, i) :: rows[i] in r
    decreases |rows|
  {
    if |rows| == 0 then t
    else
      var n := |rows| - 1;
      var front := rows[..n];
      assert rows == front + [rows[n]];
      assert Ids(rows) == Ids(front) + {rows[n].id};
      var before := BulkPut(t, front);
      var r := Put(before, rows[n]);
      assert forall i | 0 <= i < n && LastWithItsId(rows, i) :: LastWithItsId(front, i) && rows[i].id != rows[n].id;
      r
  }

  /** `after` is `before` with the one new row `x` added. */
  ghost predicate Inserted<F>(before: seq<Row<F>>, after: seq<Row<F>>, x: Row<F>)
  {
    && x in after
    && |after| == |before| + 1
    && (forall y | y in before :: y in after)
    && (forall y | y in after :: y == x || y in before)
  }

  /** Every row stamped with the time `now`, as a reload does before writing. */
  function Restamp<F>(rows: seq<Row<F>>, now: int): (r: seq<Row<F>>)
    ensures |r| == |rows|
    ensures forall i | 0 <= i < |r| :: r[i] == rows[i].(lastUpdated := now)
  {
    seq(|rows|, i requires 0 <= i < |rows| => rows[i].(lastUpdated := now))
  }

  /**
    `clear` followed by `bulkPut` in one transaction: the table ends up with
    the rows given (the last one per key) and nothing it held before.
   */
  function ReplaceAll<F>(rows: seq<Row<F>>): (r: Table<F>)
    ensures forall y | y in r :: y in rows
    ensures forall i | 0 <= i < |rows| && LastWithItsId(rows, i) :: rows[i] in r
    ensures DistinctIds(rows) ==> forall i | 0 <= i < |rows| :: rows[i] in r
  {
    BulkPut([], rows)
  }
}
