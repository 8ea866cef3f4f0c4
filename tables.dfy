/** The value-level model of one table: its row store, its per-column indexes,
    and what get, insert and update do to them. The class `InMem.Table` is
    proved to behave as these functions say. */
module Tables {
  import opened Errors

  /** A row's payload: an opaque byte blob. */
  type Blob = seq<bv8>

  /** Column name -> value -> row positions, in insertion order. */
  type Index = map<string, map<string, seq<nat>>>

  /** The state of a table: its indexes and its row store. */
  datatype TableState = TableState(rows: Index, rowData: seq<Blob>)

  /** The argument of an insert: column names, their values, and the payload. */
  datatype Row = Row(cols: seq<string>, vals: seq<string>, data: Blob)

  /** The positions stored for value `v` of column `c`; none when either is absent. */
  function Bucket(rows: Index, c: string, v: string): seq<nat>
  {
    if c in rows && v in rows[c] then rows[c][v] else []
  }

  /** Every stored position addresses a row of the row store. */
  ghost predicate PositionsInRange(t: TableState)
  {
    forall c, v, k :: 0 <= k < |Bucket(t.rows, c, v)| ==> Bucket(t.rows, c, v)[k] < |t.rowData|
  }

  /** A value has a bucket only once some row was indexed under it. */
  ghost predicate BucketsNonEmpty(t: TableState)
  {
    forall c, v :: c in t.rows && v in t.rows[c] ==> t.rows[c][v] != []
  }

  /** The table invariant. */
  ghost predicate Valid(t: TableState)
  {
    PositionsInRange(t) && BucketsNonEmpty(t)
  }

  /** `n` copies of `x`. */
  function Repeat<T>(x: T, n: nat): seq<T>
  {
    seq(n, _ => x)
  }

  /** How many pairs (cols[i], vals[i]) equal (c, v). */
  function Occurrences(cols: seq<string>, vals: seq<string>, c: string, v: string): nat
    requires |cols| == |vals|
    decreases |cols|
  {
    if |cols| == 0 then 0
    else (if cols[0] == c && vals[0] == v then 1 else 0) + Occurrences(cols[1..], vals[1..], c, v)
  }

  // ---------------------------------------------------------------- newTable

  /** A fresh table: an empty index for each declared column, no rows. */
  function Empty(columns: seq<string>): TableState
  {
    TableState(map c | c in columns :: map[], [])
  }

  // ---------------------------------------------------------------- get

  /** The payloads at the given positions, in the order of the positions. */
  function Select(rowData: seq<Blob>, ps: seq<nat>): seq<Blob>
    requires forall k :: 0 <= k < |ps| ==> ps[k] < |rowData|
  {
    seq(|ps|, k requires 0 <= k < |ps| => rowData[ps[k]])
  }

  /** get: the rows whose `whereCol` was `id`; an unindexed column is an error,
      a value without a bucket yields no rows. */
  function Get(t: TableState, whereCol: string, id: string): Result<seq<Blob>>
    requires PositionsInRange(t)
  {
    if whereCol !in t.rows then Err(ColumnNotFound)
    else Ok(Select(t.rowData, Bucket(t.rows, whereCol, id)))
  }

  // ---------------------------------------------------------------- insert

  /** Appends position `p` to the bucket of `v` in column `c`, creating the
      column's index if it has none. */
  function AddPosition(rows: Index, c: string, v: string, p: nat): Index
  {
    var column := if c in rows then rows[c] else map[];
    rows[c := column[v := (if v in column then column[v] else []) + [p]]]
  }

  /** Indexes position `p` under every pair (cols[i], vals[i]), left to right. */
  function IndexAll(rows: Index, cols: seq<string>, vals: seq<string>, p: nat): Index
    requires |cols| == |vals|
    decreases |cols|
  {
    if |cols| == 0 then rows
    else IndexAll(AddPosition(rows, cols[0], vals[0], p), cols[1..], vals[1..], p)
  }

  /** insert: append the payload, then index its position under each pair. */
  function Insert(t: TableState, r: Row): TableState
    requires |r.cols| == |r.vals|
  {
    TableState(IndexAll(t.rows, r.cols, r.vals, |t.rowData|), t.rowData + [r.data])
  }

  // ---------------------------------------------------------------- update

  /** The row store with every position listed in `ps` holding `d`. */
  function Overwrite(rowData: seq<Blob>, ps: seq<nat>, d: Blob): seq<Blob>
  {
    seq(|rowData|, i requires 0 <= i < |rowData| => if i in ps then d else rowData[i])
  }

  /** update: overwrite every row of one bucket; a missing column or bucket is
      an error and leaves the table as it was. */
  function Update(t: TableState, c: string, v: string, d: Blob): (Outcome, TableState)
  {
    if c !in t.rows then (Fail(ColumnNotFound), t)
    else if v !in t.rows[c] then (Fail(ValueNotFound), t)
    else (Pass, TableState(t.rows, Overwrite(t.rowData, t.rows[c][v], d)))
  }

  // ---------------------------------------------------------------- lemmas

  /** Every pair of an insert is counted at least once. */
  lemma {:induction false} OccursAt(cols: seq<string>, vals: seq<string>, i: nat)
    requires |cols| == |vals| && i < |cols|
    ensures Occurrences(cols, vals, cols[i], vals[i]) > 0
  {
    if i > 0 {
      OccursAt(cols[1..], vals[1..], i - 1);
    }
  }

  /** After indexing, each bucket is its old contents followed by the new
      position once per pair naming it; buckets no pair names are unchanged. */
  lemma {:induction false} IndexAllBucket(rows: Index, cols: seq<string>, vals: seq<string>, p: nat, c: string, v: string)
    requires |cols| == |vals|
    ensures Bucket(IndexAll(rows, cols, vals, p), c, v)
            == Bucket(rows, c, v) + Repeat(p, Occurrences(cols, vals, c, v))
    decreases |cols|
  {
    if |cols| > 0 {
      var rows' := AddPosition(rows, cols[0], vals[0], p);
      IndexAllBucket(rows', cols[1..], vals[1..], p, c, v);
      var n := Occurrences(cols[1..], vals[1..], c, v);
      if cols[0] == c && vals[0] == v {
        assert Bucket(rows', c, v) == Bucket(rows, c, v) + [p];
        assert Repeat(p, n + 1) == [p] + Repeat(p, n);
      } else {
        assert Bucket(rows', c, v) == Bucket(rows, c, v);
      }
    }
  }

  /** After indexing, a column has an index exactly when it had one or some
      pair names it, and a value has a bucket exactly when it had one or some
      pair names it. */
  lemma {:induction false} IndexAllKeys(rows: Index, cols: seq<string>, vals: seq<string>, p: nat, c: string, v: string)
    requires |cols| == |vals|
    ensures var rows' := IndexAll(rows, cols, vals, p);
            && (c in rows' <==> c in rows || c in cols)
            && (c in rows' && v in rows'[c] <==> (c in rows && v in rows[c]) || Occurrences(cols, vals, c, v) > 0)
    decreases |cols|
  {
    if |cols| > 0 {
      var rows' := AddPosition(rows, cols[0], vals[0], p);
      IndexAllKeys(rows', cols[1..], vals[1..], p, c, v);
      assert c in cols <==> c == cols[0] || c in cols[1..] by {
        assert cols == [cols[0]] + cols[1..];
      }
    }
  }

  /** A fresh table satisfies the invariant, every declared column has an empty
      index, and no other column has one. */
  lemma EmptyIsValid(columns: seq<string>)
    ensures Valid(Empty(columns))
    ensures Empty(columns).rowData == []
    ensures forall c :: c in Empty(columns).rows <==> c in columns
    ensures forall c :: c in columns ==> Empty(columns).rows[c] == map[]
  {
  }

  /** Insert keeps the invariant. */
  lemma InsertPreservesValid(t: TableState, r: Row)
    requires Valid(t) && |r.cols| == |r.vals|
    ensures Valid(Insert(t, r))
  {
    var t' := Insert(t, r);
    var p := |t.rowData|;
    forall c, v, k | 0 <= k < |Bucket(t'.rows, c, v)|
      ensures Bucket(t'.rows, c, v)[k] < |t'.rowData|
    {
      IndexAllBucket(t.rows, r.cols, r.vals, p, c, v);
    }
    forall c, v | c in t'.rows && v in t'.rows[c]
      ensures t'.rows[c][v] != []
    {
      IndexAllKeys(t.rows, r.cols, r.vals, p, c, v);
      IndexAllBucket(t.rows, r.cols, r.vals, p, c, v);
      assert Bucket(t'.rows, c, v) == t'.rows[c][v];
      if c in t.rows && v in t.rows[c] {
        assert Bucket(t.rows, c, v) != [];
      }
    }
  }

  /** Update keeps the invariant, the indexes, and the number of rows. */
  lemma UpdatePreservesValid(t: TableState, c: string, v: string, d: Blob)
    requires Valid(t)
    ensures var t' := Update(t, c, v, d).1;
            Valid(t') && t'.rows == t.rows && |t'.rowData| == |t.rowData|
  {
  }

  /** Insert appends exactly one row, at the old end, keeps every earlier row,
      indexes the new position under every pair in order, registers every
      named column, and leaves all other buckets and columns unchanged. */
  lemma {:induction false} InsertEffect(t: TableState, r: Row, c: string, v: string)
    requires |r.cols| == |r.vals|
    ensures var t' := Insert(t, r);
            && |t'.rowData| == |t.rowData| + 1
            && t'.rowData[..|t.rowData|] == t.rowData
            && t'.rowData[|t.rowData|] == r.data
            && Bucket(t'.rows, c, v) == Bucket(t.rows, c, v) + Repeat(|t.rowData|, Occurrences(r.cols, r.vals, c, v))
            && (c in t'.rows <==> c in t.rows || c in r.cols)
  {
    IndexAllBucket(t.rows, r.cols, r.vals, |t.rowData|, c, v);
    IndexAllKeys(t.rows, r.cols, r.vals, |t.rowData|, c, v);
  }

  /** A get after an insert returns what it returned before, followed by the
      new payload once per pair naming (c, v); in particular every pair of the
      insert now finds the new payload at the end. */
  lemma InsertThenGet(t: TableState, r: Row, c: string, v: string)
    requires Valid(t) && |r.cols| == |r.vals|
    requires c in t.rows || c in r.cols
    ensures Valid(Insert(t, r))
    ensures Get(Insert(t, r), c, v)
            == Ok(Select(t.rowData, Bucket(t.rows, c, v)) + Repeat(r.data, Occurrences(r.cols, r.vals, c, v)))
  {
    var t' := Insert(t, r);
    InsertPreservesValid(t, r);
    IndexAllBucket(t.rows, r.cols, r.vals, |t.rowData|, c, v);
    IndexAllKeys(t.rows, r.cols, r.vals, |t.rowData|, c, v);
    var old' := Select(t.rowData, Bucket(t.rows, c, v));
    var n := Occurrences(r.cols, r.vals, c, v);
    var got := Select(t'.rowData, Bucket(t'.rows, c, v));
    assert |got| == |old'| + n;
    forall k | 0 <= k < |got| ensures got[k] == (old' + Repeat(r.data, n))[k] {
      if k < |old'| {
        assert Bucket(t'.rows, c, v)[k] == Bucket(t.rows, c, v)[k];
      } else {
        assert Bucket(t'.rows, c, v)[k] == |t.rowData|;
      }
    }
    assert got == old' + Repeat(r.data, n);
  }

  /** After an update of (c, v) to `d`, a get of (c, v) returns `d` once per
      row of the bucket. */
  lemma UpdateThenGet(t: TableState, c: string, v: string, d: Blob)
    requires Valid(t) && Update(t, c, v, d).0 == Pass
    ensures PositionsInRange(Update(t, c, v, d).1)
    ensures Get(Update(t, c, v, d).1, c, v) == Ok(Repeat(d, |t.rows[c][v]|))
  {
    var t' := Update(t, c, v, d).1;
    var got := Select(t'.rowData, Bucket(t'.rows, c, v));
    forall k | 0 <= k < |got| ensures got[k] == d {
      assert t.rows[c][v][k] in t.rows[c][v];
    }
    assert got == Repeat(d, |t.rows[c][v]|);
  }

  /** An update changes a get of any other bucket only at the positions it
      shares with the updated bucket; every other row is returned as before. */
  lemma UpdateKeepsOtherRows(t: TableState, c: string, v: string, d: Blob, c2: string, v2: string)
    requires Valid(t) && Update(t, c, v, d).0 == Pass && c2 in t.rows
    ensures PositionsInRange(Update(t, c, v, d).1)
    ensures var before := Get(t, c2, v2).value;
            var after := Get(Update(t, c, v, d).1, c2, v2);
            && after.Ok? && |after.value| == |before|
            && forall k :: 0 <= k < |before| ==>
                 after.value[k] == if Bucket(t.rows, c2, v2)[k] in t.rows[c][v] then d else before[k]
  {
  }

  /** On a column with an index, update reports a missing value exactly when
      get returns no rows. */
  lemma ValueNotFoundIffNoRows(t: TableState, c: string, v: string, d: Blob)
    requires Valid(t) && c in t.rows
    ensures Update(t, c, v, d).0 == Fail(ValueNotFound) <==> Get(t, c, v) == Ok([])
  {
    if v in t.rows[c] {
      assert |Select(t.rowData, Bucket(t.rows, c, v))| > 0;
    } else {
      assert Select(t.rowData, Bucket(t.rows, c, v)) == [];
    }
  }
}
