# inmem-db: a verified model of the in-memory table engine

This project models the table-and-index engine of package `inmem`
(`db/inmem/db.go`). A `DB` maps table names to tables. The set of names is fixed
when the database is built. Each table holds two things:

- `rowData`: an append-only sequence of opaque byte blobs, addressed by position.
- `rows`: an index from column name to value to the list of row positions, in
  insertion order.

`Insert` appends a blob and indexes its position under each (column, value)
pair. A column's index is created on first use, whether or not the column was
declared. `Get` maps the positions of one bucket to their current blobs.
`Update` overwrites the blob at every position of one bucket.

The model has four modules:

- `Errors` (`errors.dfy`): the four error kinds, and the `Outcome` and `Result`
  wrappers.
- `Tables` (`tables.dfy`): one table as a value (`TableState`). It defines the
  table invariant `Valid`: every stored position addresses a row, and every
  bucket that exists is non-empty. It gives get, insert and update as
  functions, with lemmas about them.
- `Database` (`database.dfy`): the database as a value (`Db`, a map from name
  to `TableState`). It gives NewDB, Get, Insert and Update as functions, with
  lemmas for the error cases, the effects, and the round trips between the
  operations.
- `InMem` (`inmem.dfy`): the classes `Table` and `DB`, updated in place with the
  loops of the source. Each method is proved to keep the invariant and to
  produce the state and result that the functions of `Tables` and `Database`
  give.

## Model

| member | source | states |
|---|---|---|
| `InMem.Table.constructor` | db/inmem/db.go:156-164 | newTable gives each declared column an empty index and the table no rows, and the invariant holds |
| `InMem.Table.Get` | db/inmem/db.go:63-77 | get fails with ColumnNotFound exactly when the column has no index; otherwise it returns one blob per bucket position, element k being `rowData[bucket[k]]`, and an empty result when the value has no bucket |
| `InMem.Table.Insert` | db/inmem/db.go:101-115 | the table's new state is the old one with the blob appended and its position indexed under each pair, left to right; the invariant is kept |
| `InMem.Table.Update` | db/inmem/db.go:133-149 | ColumnNotFound / ValueNotFound with no change; otherwise every bucket position now holds the new blob, all other rows and all indexes are unchanged, and the invariant is kept |
| `InMem.DB.constructor` | db/inmem/db.go:33-42 | NewDB's tables are, name by name, the empty tables of the declarations, with a later declaration of a name replacing an earlier one; distinct names hold distinct table objects, all newly allocated, so the database owns them and callers may insert and update through it |
| `InMem.DB.Get` | db/inmem/db.go:51-61 | TableNotFound for an unregistered table, otherwise the table's get; nothing changes |
| `InMem.DB.Insert` | db/inmem/db.go:80-99 | the length check comes before the table lookup; a failure changes nothing; a success changes only the addressed table, as the table's insert |
| `InMem.DB.Update` | db/inmem/db.go:118-131 | the empty-argument check comes before the table lookup; any failure changes nothing; a success changes only the addressed table, as the table's update |
| `Tables.OccursAt` | db/inmem/db.go:105-113 | every (column, value) pair of an insert is counted among the pairs that index the new row |
| `Tables.IndexAllBucket` | db/inmem/db.go:105-113 | after indexing, each bucket is its old contents followed by the new position once per pair naming it; buckets no pair names are unchanged |
| `Tables.IndexAllKeys` | db/inmem/db.go:106-112 | after indexing, a column has an index iff it had one or a pair names it; a value has a bucket iff it had one or a pair names it |
| `Tables.EmptyIsValid` | db/inmem/db.go:156-164 | a new table has no rows, an index for exactly the declared columns, each empty, and satisfies the invariant |
| `Tables.InsertPreservesValid` | db/inmem/db.go:101-113 | insert keeps every stored position below the row count and every bucket non-empty |
| `Tables.UpdatePreservesValid` | db/inmem/db.go:145-147 | update keeps the invariant, the indexes and the row count |
| `Tables.InsertEffect` | db/inmem/db.go:101-113 | insert appends exactly one row at the old end, keeps every earlier row, appends the new position once per naming pair, and registers every named column |
| `Tables.InsertThenGet` | db/inmem/db.go:101-113 | a get after an insert returns the rows it returned before, followed by the new blob once per pair naming that (column, value) |
| `Tables.UpdateThenGet` | db/inmem/db.go:145-147 | after an update of (c, v), a get of (c, v) returns the new blob once per row of the bucket |
| `Tables.UpdateKeepsOtherRows` | db/inmem/db.go:145-147 | after an update, a get of any indexed bucket returns as many rows as before, the new blob where a position is shared with the updated bucket and the old blob elsewhere |
| `Tables.ValueNotFoundIffNoRows` | db/inmem/db.go:140-143 | on an indexed column, update reports ValueNotFound exactly when get returns no rows |
| `Database.NewRegisters` | db/inmem/db.go:33-42 | NewDB registers exactly the declared names, each table with no rows and satisfying the invariant |
| `Database.NewLastWins` | db/inmem/db.go:35-37 | the table under a name is the empty table of the last declaration of that name |
| `Database.DeclaredColumnStartsEmpty` | db/inmem/db.go:157-160 | a Get on a declared column of a fresh table returns no rows, not an error |
| `Database.GetShape` | db/inmem/db.go:55-77 | Get fails with TableNotFound / ColumnNotFound in exactly those cases; otherwise it returns one blob per bucket position, in bucket order |
| `Database.InsertOutcome` | db/inmem/db.go:84-91 | Insert fails with ArgumentMismatch iff the lengths differ, with TableNotFound iff they agree and the table is unknown; a failure changes nothing |
| `Database.InsertEffect` | db/inmem/db.go:88-113 | a successful Insert keeps the table set and every other table, appends the blob to the addressed table, extends each bucket by the new position once per naming pair, and registers the named columns |
| `Database.InsertThenGet` | db/inmem/db.go:93-113 | after a successful Insert, a Get by any of its pairs returns the earlier rows followed by the new blob, which is therefore last |
| `Database.InsertPreservesValidDb` | db/inmem/db.go:101-113 | Insert keeps every table's invariant |
| `Database.UpdateOutcome` | db/inmem/db.go:122-143 | Update fails, changing nothing, exactly for an empty column or value, an unknown table, an unindexed column, or a value without a bucket, each with its own error kind |
| `Database.UpdateEffect` | db/inmem/db.go:126-148 | a successful Update writes the blob to every bucket position and nowhere else; the table set, row count, indexes and other tables are unchanged |
| `Database.UpdateThenGet` | db/inmem/db.go:145-148 | after a successful Update of (col, val), a Get of (col, val) returns the new blob once per bucket row |
| `Database.UpdatePreservesValidDb` | db/inmem/db.go:145-147 | Update keeps every table's invariant |
| `Database.ImportsScenario` | db/inmem/db_test.go:61-83 | two rows inserted under the same csid come back in insertion order; an Update of that csid then rewrites both, the multi-row case of the update tests |
| `Database.TwoImportsFacts` | db/inmem/db_test.go:198-200 | two inserts with one csid and distinct import ids both succeed, and each import id indexes only its own row |
| `Database.UpdateByImportIdScenario` | db/inmem/db_test.go:155-209 | an Update by one import id rewrites that row only; the other import id still returns its original blob, and an insert into another table disturbs neither |

## Left out

- Locking: the read/write mutex is not modelled. Each call is treated as atomic, which is what the lock provides.
- The `context.Context` parameters are never read by the engine, so they are not modelled.
- Error messages are modelled as kinds. Insert and Update format the nil table pointer instead of the table name in their table-not-found message. The model does not capture this.
- Aliasing of byte slices: Insert stores the caller's slice without copying it, Update stores one slice at every position, and Get returns the stored slices. In the model, blobs are values, so a caller mutating a slice afterwards is not represented.
- The inner per-column maps are Go map references that Insert mutates through a local variable. The model writes the updated inner map back into `rows`. The result is the same, because each inner map belongs to exactly one column.
- Go's `int` row positions are modelled as `nat`. They are never negative, and no overflow is reachable with in-memory data.
- The profile service in `repo/profile/inmem.go` is not part of this model. It is a collaborator that gob-encodes records and calls the three operations.
- `db/inmem/import.go`, `domain/errors.go` and `test/test.go` hold no engine logic and are not part of this model.
