/** The value-level model of a database: a fixed set of named tables, and what
    Get, Insert and Update do when addressed by table name. The class
    `InMem.DB` is proved to behave as these functions say. */
module Database {
  import opened Errors
  import opened Tables

  /** The state of a database: table name -> table. */
  type Db = map<string, TableState>

  /** The declaration of one table: its name and its declared columns. */
  datatype TableDef = TableDef(name: string, columns: seq<string>)

  /** Every table of the database satisfies the table invariant. */
  ghost predicate ValidDb(s: Db)
  {
    forall n :: n in s ==> Tables.Valid(s[n])
  }

  /** The names a list of declarations registers. */
  function Names(defs: seq<TableDef>): set<string>
  {
    set d | d in defs :: d.name
  }

  /** NewDB: one empty table per declaration, in order, so that a later
      declaration of a name replaces an earlier one. */
  function New(defs: seq<TableDef>): Db
    decreases |defs|
  {
    if defs == [] then map[]
    else New(defs[..|defs| - 1])[defs[|defs| - 1].name := Tables.Empty(defs[|defs| - 1].columns)]
  }

  /** Get: an unknown table is an error; otherwise the table's get. */
  function Get(s: Db, table: string, whereCol: string, id: string): Result<seq<Blob>>
    requires ValidDb(s)
  {
    if table !in s then Err(TableNotFound)
    else Tables.Get(s[table], whereCol, id)
  }

  /** Insert: the lengths are checked first, then the table is looked up;
      either failure leaves the database as it was. */
  function Insert(s: Db, table: string, cols: seq<string>, vals: seq<string>, data: Blob): (Outcome, Db)
  {
    if |cols| != |vals| then (Fail(ArgumentMismatch), s)
    else if table !in s then (Fail(TableNotFound), s)
    else (Pass, s[table := Tables.Insert(s[table], Row(cols, vals, data))])
  }

  /** Update: empty arguments are rejected first, then the table is looked
      up, then the table's update decides; any failure leaves the database as
      it was. */
  function Update(s: Db, table: string, col: string, val: string, data: Blob): (Outcome, Db)
  {
    if col == "" || val == "" then (Fail(ArgumentMismatch), s)
    else if table !in s then (Fail(TableNotFound), s)
    else
      var (o, t') := Tables.Update(s[table], col, val, data);
      if o.Fail? then (o, s) else (Pass, s[table := t'])
  }

  // ---------------------------------------------------------------- construction

  /** NewDB registers exactly the declared names, each with an empty row store,
      and every table satisfies the invariant. */
  lemma {:induction false} NewRegisters(defs: seq<TableDef>)
    ensures New(defs).Keys == Names(defs)
    ensures ValidDb(New(defs))
    ensures forall n :: n in New(defs) ==> New(defs)[n].rowData == []
    decreases |defs|
  {
    if defs != [] {
      var init := defs[..|defs| - 1];
      var last := defs[|defs| - 1];
      NewRegisters(init);
      Tables.EmptyIsValid(last.columns);
      assert defs == init + [last];
      assert Names(defs) == Names(init) + {last.name};
    }
  }

  /** The table registered under a name is the empty table of the last
      declaration of that name. */
  lemma {:induction false} NewLastWins(defs: seq<TableDef>, i: nat)
    requires i < |defs|
    requires forall j :: i < j < |defs| ==> defs[j].name != defs[i].name
    ensures defs[i].name in New(defs)
    ensures New(defs)[defs[i].name] == Tables.Empty(defs[i].columns)
    decreases |defs|
  {
    if i < |defs| - 1 {
      NewLastWins(defs[..|defs| - 1], i);
    }
  }

  /** A Get on a declared column of a table nobody has inserted into returns
      no rows rather than an error. */
  lemma DeclaredColumnStartsEmpty(defs: seq<TableDef>, i: nat, c: string, id: string)
    requires i < |defs|
    requires forall j :: i < j < |defs| ==> defs[j].name != defs[i].name
    requires c in defs[i].columns
    ensures ValidDb(New(defs))
    ensures Get(New(defs), defs[i].name, c, id) == Ok([])
  {
    NewRegisters(defs);
    NewLastWins(defs, i);
    var t := New(defs)[defs[i].name];
    Tables.EmptyIsValid(defs[i].columns);
    assert Bucket(t.rows, c, id) == [];
    assert Select(t.rowData, []) == [];
  }

  // ---------------------------------------------------------------- get

  /** Get succeeds exactly on a known table with an indexed column; it then
      returns one payload per position of the bucket, in bucket order. */
  lemma GetShape(s: Db, table: string, whereCol: string, id: string)
    requires ValidDb(s)
    ensures var r := Get(s, table, whereCol, id);
            && (table !in s ==> r == Err(TableNotFound))
            && (table in s && whereCol !in s[table].rows ==> r == Err(ColumnNotFound))
            && (table in s && whereCol in s[table].rows ==>
                  var b := Bucket(s[table].rows, whereCol, id);
                  && r.Ok? && |r.value| == |b|
                  && forall k :: 0 <= k < |b| ==> r.value[k] == s[table].rowData[b[k]])
  {
  }

  // ---------------------------------------------------------------- insert

  /** Insert fails with a length mismatch exactly when the lengths differ, with
      table-not-found exactly when the lengths agree and the table is unknown,
      and a failed Insert changes nothing. */
  lemma InsertOutcome(s: Db, table: string, cols: seq<string>, vals: seq<string>, data: Blob)
    ensures var (o, s') := Insert(s, table, cols, vals, data);
            && (o == Fail(ArgumentMismatch) <==> |cols| != |vals|)
            && (o == Fail(TableNotFound) <==> |cols| == |vals| && table !in s)
            && (o == Pass <==> |cols| == |vals| && table in s)
            && (o.Fail? ==> s' == s)
  {
  }

  /** A successful Insert appends exactly one row to the addressed table, at
      the old end; it keeps every earlier row; it appends the new position to
      each named bucket once per pair naming it; it registers each named
      column. Buckets no pair names and all other tables are unchanged. */
  lemma InsertEffect(s: Db, table: string, cols: seq<string>, vals: seq<string>, data: Blob, c: string, v: string)
    requires Insert(s, table, cols, vals, data).0 == Pass
    ensures var s' := Insert(s, table, cols, vals, data).1;
            var t, t' := s[table], s'[table];
            && s'.Keys == s.Keys
            && (forall n :: n in s && n != table ==> s'[n] == s[n])
            && t'.rowData == t.rowData + [data]
            && Bucket(t'.rows, c, v) == Bucket(t.rows, c, v) + Repeat(|t.rowData|, Occurrences(cols, vals, c, v))
            && (c in t'.rows <==> c in t.rows || c in cols)
  {
    Tables.InsertEffect(s[table], Row(cols, vals, data), c, v);
  }

  /** Every pair (cols[i], vals[i]) of a successful Insert finds the new
      payload at the end of its Get, after the rows it found before. */
  lemma InsertThenGet(s: Db, table: string, cols: seq<string>, vals: seq<string>, data: Blob, i: nat)
    requires ValidDb(s)
    requires Insert(s, table, cols, vals, data).0 == Pass && i < |cols|
    ensures ValidDb(Insert(s, table, cols, vals, data).1)
    ensures var before := Get(s, table, cols[i], vals[i]);
            var after := Get(Insert(s, table, cols, vals, data).1, table, cols[i], vals[i]);
            var n := Occurrences(cols, vals, cols[i], vals[i]);
            && (before.Err? ==> before.error == ColumnNotFound)
            && after == Ok((if before.Ok? then before.value else []) + Repeat(data, n))
            && n > 0 && after.value[|after.value| - 1] == data
  {
    InsertPreservesValidDb(s, table, cols, vals, data);
    var r := Row(cols, vals, data);
    var t := s[table];
    assert cols[i] in cols;
    Tables.InsertThenGet(t, r, cols[i], vals[i]);
    OccursAt(cols, vals, i);
    if cols[i] !in t.rows {
      assert Bucket(t.rows, cols[i], vals[i]) == [];
      assert Select(t.rowData, []) == [];
    }
  }

  /** Insert keeps every table's invariant. */
  lemma InsertPreservesValidDb(s: Db, table: string, cols: seq<string>, vals: seq<string>, data: Blob)
    requires ValidDb(s)
    ensures ValidDb(Insert(s, table, cols, vals, data).1)
  {
    if |cols| == |vals| && table in s {
      Tables.InsertPreservesValid(s[table], Row(cols, vals, data));
    }
  }

  // ---------------------------------------------------------------- update

  /** Update fails, changing nothing, exactly in the source's four cases, each
      with its own error kind. */
  lemma UpdateOutcome(s: Db, table: string, col: string, val: string, data: Blob)
    ensures var (o, s') := Update(s, table, col, val, data);
            && (o == Fail(ArgumentMismatch) <==> col == "" || val == "")
            && (o == Fail(TableNotFound) <==> col != "" && val != "" && table !in s)
            && (o == Fail(ColumnNotFound) <==> col != "" && val != "" && table in s && col !in s[table].rows)
            && (o == Fail(ValueNotFound) <==>
                  col != "" && val != "" && table in s && col in s[table].rows && val !in s[table].rows[col])
            && (o.Fail? ==> s' == s)
  {
  }

  /** A successful Update writes `data` to every row of the bucket and to no
      other row; the number of rows, all indexes and all other tables are
      unchanged. */
  lemma UpdateEffect(s: Db, table: string, col: string, val: string, data: Blob)
    requires Update(s, table, col, val, data).0 == Pass
    ensures var s' := Update(s, table, col, val, data).1;
            var t, t' := s[table], s'[table];
            && s'.Keys == s.Keys
            && (forall n :: n in s && n != table ==> s'[n] == s[n])
            && t'.rows == t.rows
            && |t'.rowData| == |t.rowData|
            && (forall p :: 0 <= p < |t.rowData| ==>
                  t'.rowData[p] == if p in t.rows[col][val] then data else t.rowData[p])
  {
  }

  /** After a successful Update of (col, val), a Get of (col, val) returns the
      new payload once per row of the bucket. */
  lemma UpdateThenGet(s: Db, table: string, col: string, val: string, data: Blob)
    requires ValidDb(s) && Update(s, table, col, val, data).0 == Pass
    ensures ValidDb(Update(s, table, col, val, data).1)
    ensures Get(Update(s, table, col, val, data).1, table, col, val)
            == Ok(Repeat(data, |s[table].rows[col][val]|))
  {
    UpdatePreservesValidDb(s, table, col, val, data);
    Tables.UpdateThenGet(s[table], col, val, data);
  }

  /** Update keeps every table's invariant. */
  lemma UpdatePreservesValidDb(s: Db, table: string, col: string, val: string, data: Blob)
    requires ValidDb(s)
    ensures ValidDb(Update(s, table, col, val, data).1)
  {
    if col != "" && val != "" && table in s {
      Tables.UpdatePreservesValid(s[table], col, val, data);
    }
  }

  // ---------------------------------------------------------------- a scenario

  /** Two rows inserted under csid "A" into a table declared without columns
      come back in insertion order; an Update of csid "A" then rewrites both. */
  lemma ImportsScenario(b1: Blob, b2: Blob, b3: Blob)
    ensures var s0 := New([TableDef("imports", [])]);
            var (o1, s1) := Insert(s0, "imports", ["csid"], ["A"], b1);
            var (o2, s2) := Insert(s1, "imports", ["csid"], ["A"], b2);
            var (o3, s3) := Update(s2, "imports", "csid", "A", b3);
            && o1 == Pass && o2 == Pass && o3 == Pass
            && ValidDb(s2) && ValidDb(s3)
            && Get(s2, "imports", "csid", "A") == Ok([b1, b2])
            && Get(s3, "imports", "csid", "A") == Ok([b3, b3])
  {
    var s0 := New([TableDef("imports", [])]);
    NewRegisters([TableDef("imports", [])]);
    var s1 := Insert(s0, "imports", ["csid"], ["A"], b1).1;
    InsertPreservesValidDb(s0, "imports", ["csid"], ["A"], b1);
    var s2 := Insert(s1, "imports", ["csid"], ["A"], b2).1;
    InsertPreservesValidDb(s1, "imports", ["csid"], ["A"], b2);
    assert s2["imports"].rowData == [b1, b2];
    assert Bucket(s2["imports"].rows, "csid", "A") == [0, 1];
    assert Select(s2["imports"].rowData, [0, 1]) == [b1, b2];
    UpdateThenGet(s2, "imports", "csid", "A", b3);
    assert Repeat(b3, 2) == [b3, b3];
  }

  /** Two rows share a csid but have distinct import ids; an Update by one
      import id rewrites that row only, and an insert into another table does
      not disturb either. */
  lemma UpdateByImportIdScenario(csid: string, a1: string, a2: string, b1: Blob, b2: Blob, b3: Blob)
    requires a1 != a2 && a1 != ""
    ensures var s2 := TwoImports(csid, a1, a2, b1, b2);
            var (o3, s3) := Update(s2, "imports", "importID", a1, b3);
            var (o4, s4) := Insert(s3, "users", ["id"], [a2], b2);
            && o3 == Pass && o4 == Pass
            && ValidDb(s4)
            && Get(s4, "imports", "importID", a1) == Ok([b3])
            && Get(s4, "imports", "importID", a2) == Ok([b2])
  {
    var s2 := TwoImports(csid, a1, a2, b1, b2);
    TwoImportsFacts(csid, a1, a2, b1, b2);
    var (o3, s3) := Update(s2, "imports", "importID", a1, b3);
    UpdatePreservesValidDb(s2, "imports", "importID", a1, b3);
    assert s3["imports"].rowData == [b3, b2];
    var (o4, s4) := Insert(s3, "users", ["id"], [a2], b2);
    InsertPreservesValidDb(s3, "users", ["id"], [a2], b2);
    assert s4["imports"] == s3["imports"];
    assert Select([b3, b2], [0]) == [b3];
    assert Select([b3, b2], [1]) == [b2];
  }

  /** The database after two rows with one csid and distinct import ids are
      inserted into "imports", with "users" also declared. */
  function TwoImports(csid: string, a1: string, a2: string, b1: Blob, b2: Blob): Db
  {
    var s0 := New([TableDef("imports", []), TableDef("users", [])]);
    var s1 := Insert(s0, "imports", ["csid", "importID"], [csid, a1], b1).1;
    Insert(s1, "imports", ["csid", "importID"], [csid, a2], b2).1
  }

  /** Both inserts of `TwoImports` succeed, and each import id indexes its own row. */
  lemma TwoImportsFacts(csid: string, a1: string, a2: string, b1: Blob, b2: Blob)
    requires a1 != a2
    ensures var s0 := New([TableDef("imports", []), TableDef("users", [])]);
            var (o1, s1) := Insert(s0, "imports", ["csid", "importID"], [csid, a1], b1);
            o1 == Pass && Insert(s1, "imports", ["csid", "importID"], [csid, a2], b2).0 == Pass
    ensures var s2 := TwoImports(csid, a1, a2, b1, b2);
            && ValidDb(s2) && s2.Keys == {"imports", "users"}
            && s2["imports"].rowData == [b1, b2]
            && Bucket(s2["imports"].rows, "importID", a1) == [0]
            && Bucket(s2["imports"].rows, "importID", a2) == [1]
  {
    var defs := [TableDef("imports", []), TableDef("users", [])];
    var cols := ["csid", "importID"];
    var s0 := New(defs);
    NewRegisters(defs);
    assert Names(defs) == {"imports", "users"};
    var s1 := Insert(s0, "imports", cols, [csid, a1], b1).1;
    InsertPreservesValidDb(s0, "imports", cols, [csid, a1], b1);
    InsertPreservesValidDb(s1, "imports", cols, [csid, a2], b2);
    Tables.InsertEffect(s0["imports"], Row(cols, [csid, a1], b1), "importID", a1);
    Tables.InsertEffect(s0["imports"], Row(cols, [csid, a1], b1), "importID", a2);
    Tables.InsertEffect(s1["imports"], Row(cols, [csid, a2], b2), "importID", a1);
    Tables.InsertEffect(s1["imports"], Row(cols, [csid, a2], b2), "importID", a2);
  }
}
