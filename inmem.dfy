/** The in-memory database of package `inmem`: a `DB` object holding one
    `Table` object per registered name, each mutated in place by insert and
    update. Each method is proved to act as the functions of `Tables` and
    `Database` say, and to keep the table invariant. */
module InMem {
  import opened Errors
  import opened Tables
  import Database

  /** One table: its per-column indexes and its row store, both updated in
      place. */
  class Table {
    var rows: Index
    var rowData: seq<Blob>

    /** The value this table currently holds. */
    function State(): TableState
      reads this
    {
      TableState(rows, rowData)
    }

    ghost predicate Valid()
      reads this
    {
      Tables.Valid(State())
    }

    /** newTable: an empty index for each declared column, and no rows. */
    constructor (columns: seq<string>)
      ensures State() == Tables.Empty(columns)
      ensures Valid()
    {
      var r: Index := map[];
      for i := 0 to |columns|
        invariant r == map c | c in columns[..i] :: map[]
      {
        assert columns[..i + 1] == columns[..i] + [columns[i]];
        r := r[columns[i] := map[]];
      }
      assert columns[..|columns|] == columns;
      rows := r;
      rowData := [];
      new;
      Tables.EmptyIsValid(columns);
    }

    /** get: the payloads listed in the bucket of `id` under `whereCol`, in
        bucket order; an unindexed column is an error, a missing bucket gives
        no rows. */
    method Get(id: string, whereCol: string) returns (r: Result<seq<Blob>>)
      requires Valid()
      ensures r.Err? <==> whereCol !in rows
      ensures r.Err? ==> r.error == ColumnNotFound
      ensures r.Ok? ==> |r.value| == |Bucket(rows, whereCol, id)|
      ensures r.Ok? ==> forall k :: 0 <= k < |r.value| ==> r.value[k] == rowData[Bucket(rows, whereCol, id)[k]]
      ensures r == Tables.Get(State(), whereCol, id)
    {
      if whereCol !in rows {
        return Err(ColumnNotFound);
      }
      var columnVals := rows[whereCol];
      var rowNums := if id in columnVals then columnVals[id] else [];
      assert rowNums == Bucket(rows, whereCol, id);
      var toReturn := new Blob[|rowNums|];
      for i := 0 to |rowNums|
        invariant forall k :: 0 <= k < i ==> toReturn[k] == rowData[rowNums[k]]
      {
        toReturn[i] := rowData[rowNums[i]];
      }
      assert toReturn[..] == Select(rowData, rowNums);
      return Ok(toReturn[..]);
    }

    /** insert: append the payload, then append its position to the bucket of
        each (column, value) pair, creating a column's index on first use. */
    method Insert(r: Row)
      requires Valid() && |r.cols| == |r.vals|
      modifies this
      ensures Valid()
      ensures State() == Tables.Insert(old(State()), r)
    {
      rowData := rowData + [r.data];
      var rowNum := |rowData| - 1;
      for i := 0 to |r.cols|
        invariant rowData == old(rowData) + [r.data]
        invariant IndexAll(rows, r.cols[i..], r.vals[i..], rowNum) == IndexAll(old(rows), r.cols, r.vals, rowNum)
      {
        ghost var before := rows;
        var col := r.cols[i];
        var c: map<string, seq<nat>>;
        if col in rows {
          c := rows[col];
        } else {
          c := map[];
          rows := rows[col := c];
        }
        var v := r.vals[i];
        c := c[v := (if v in c then c[v] else []) + [rowNum]];
        rows := rows[col := c];
        assert rows == AddPosition(before, col, v, rowNum);
        assert r.cols[i..][1..] == r.cols[i + 1..] && r.vals[i..][1..] == r.vals[i + 1..];
      }
      assert r.cols[|r.cols|..] == [] && r.vals[|r.vals|..] == [];
      Tables.InsertPreservesValid(old(State()), r);
    }

    /** update: write `d` to every row in the bucket of `v` under `c`; a
        missing column or bucket is an error and changes nothing. */
    method Update(c: string, v: string, d: Blob) returns (o: Outcome)
      requires Valid()
      modifies this
      ensures Valid()
      ensures (o, State()) == Tables.Update(old(State()), c, v, d)
    {
      if c !in rows {
        return Fail(ColumnNotFound);
      }
      var col := rows[c];
      if v !in col {
        return Fail(ValueNotFound);
      }
      var rowNums := col[v];
      for k := 0 to |rowNums|
        invariant rows == old(rows)
        invariant |rowData| == |old(rowData)|
        invariant forall p :: 0 <= p < |rowData| ==>
                    rowData[p] == if p in rowNums[..k] then d else old(rowData)[p]
      {
        assert rowNums[k] == Bucket(rows, c, v)[k];
        rowData := rowData[rowNums[k] := d];
        assert rowNums[..k + 1] == rowNums[..k] + [rowNums[k]];
      }
      assert rowNums[..|rowNums|] == rowNums;
      assert rowData == Overwrite(old(rowData), rowNums, d);
      o := Pass;
      Tables.UpdatePreservesValid(old(State()), c, v, d);
    }
  }

  /** The database: a fixed map from table name to table. */
  class DB {
    var tables: map<string, Table>

    /** Every table satisfies its invariant, and distinct names hold distinct
        tables, so that changing one table leaves the others alone. */
    ghost predicate Valid()
      reads this, tables.Values
    {
      && (forall n :: n in tables ==> tables[n].Valid())
      && (forall n, m :: n in tables && m in tables && n != m ==> tables[n] != tables[m])
    }

    /** The value the database currently holds. */
    ghost function Snapshot(): Database.Db
      reads this, tables.Values
    {
      map n | n in tables :: tables[n].State()
    }

    /** NewDB: one fresh empty table per declaration. */
    constructor (defs: seq<Database.TableDef>)
      ensures Valid()
      ensures forall n :: n in tables ==> fresh(tables[n])
      ensures Snapshot() == Database.New(defs)
    {
      var t: map<string, Table> := map[];
      for i := 0 to |defs|
        invariant forall n :: n in t ==> fresh(t[n]) && t[n].Valid()
        invariant forall n, m :: n in t && m in t && n != m ==> t[n] != t[m]
        invariant t.Keys == Database.New(defs[..i]).Keys
        invariant forall n :: n in t ==> t[n].State() == Database.New(defs[..i])[n]
      {
        var tbl := new Table(defs[i].columns);
        t := t[defs[i].name := tbl];
        assert defs[..i + 1][..i] == defs[..i];
        assert Database.New(defs[..i + 1])
               == Database.New(defs[..i])[defs[i].name := Tables.Empty(defs[i].columns)];
      }
      assert defs[..|defs|] == defs;
      tables := t;
      new;
      assert Snapshot() == Database.New(defs);
    }

    /** Get: the table's get, or table-not-found for an unknown table. */
    method Get(table: string, whereCol: string, id: string) returns (r: Result<seq<Blob>>)
      requires Valid()
      ensures Database.ValidDb(Snapshot())
      ensures r == Database.Get(Snapshot(), table, whereCol, id)
    {
      if table !in tables {
        return Err(TableNotFound);
      }
      var tbl := tables[table];
      assert Snapshot()[table] == tbl.State();
      r := tbl.Get(id, whereCol);
    }

    /** Insert: the length check comes first, then the table lookup, then the
        table's insert; a failure changes nothing. */
    method Insert(table: string, cols: seq<string>, vals: seq<string>, data: Blob) returns (o: Outcome)
      requires Valid()
      modifies tables.Values
      ensures Valid()
      ensures (o, Snapshot()) == Database.Insert(old(Snapshot()), table, cols, vals, data)
    {
      if |cols| != |vals| {
        return Fail(ArgumentMismatch);
      }
      if table !in tables {
        return Fail(TableNotFound);
      }
      var tbl := tables[table];
      tbl.Insert(Row(cols, vals, data));
      o := Pass;
      assert Snapshot() == old(Snapshot())[table := tbl.State()];
    }

    /** Update: the argument check comes first, then the table lookup, then the
        table's update; a failure changes nothing. */
    method Update(table: string, col: string, val: string, data: Blob) returns (o: Outcome)
      requires Valid()
      modifies tables.Values
      ensures Valid()
      ensures (o, Snapshot()) == Database.Update(old(Snapshot()), table, col, val, data)
    {
      if col == "" || val == "" {
        return Fail(ArgumentMismatch);
      }
      if table !in tables {
        return Fail(TableNotFound);
      }
      var tbl := tables[table];
      o := tbl.Update(col, val, data);
      if o.Fail? {
        assert tbl.State() == old(tbl.State());
        assert Snapshot() == old(Snapshot());
      } else {
        assert Snapshot() == old(Snapshot())[table := tbl.State()];
      }
    }
  }

  /** A client of two databases: the tables of a new database belong to it
      alone, so an insert into one database leaves the other as it was. */
  method TwoDatabases(defs1: seq<Database.TableDef>, defs2: seq<Database.TableDef>,
                      table: string, cols: seq<string>, vals: seq<string>, b: Blob)
  {
    var first := new DB(defs1);
    var second := new DB(defs2);
    ghost var before := second.Snapshot();
    var o := first.Insert(table, cols, vals, b);
    assert second.Snapshot() == before && second.Valid();
  }
}
