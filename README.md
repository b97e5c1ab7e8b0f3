# minisql-engine storage core in Dafny

This project models the storage and query-execution core of the minisql-engine,
a small SQL engine written in Python. It covers two parts.

**The table engine** (`storage/table.py`) is a `Table` with a fixed schema of
`(name, type)` columns, where the type is `INT` or `TEXT`, and an ordered list
of rows.
- `insert` checks the value count and then each value's type, and appends the row.
- `select` projects onto `*` or onto named columns, and can filter on one
  equality condition.
- `delete` requires a condition and keeps the rows that do not match.
- `update` overwrites one column in every matching row, in place, without a type check.

**The catalog** (`storage/database.py`) is a `Database`, a map from table
names to tables.
- It dispatches a parsed command by its tag.
- Every mutating command runs in the same order: check that the table
  exists, change it in memory, then write the table's snapshot to the data
  directory.
- At startup it rebuilds the map from the snapshots in the data directory.

Files:
- `schema.dfy` (module `Schema`) holds the values, the columns, the rows and
  the snapshots. It also holds one error constructor per exception the
  engine raises, and the shape and typing predicates over rows.
- `query.dfy` (module `Query`) gives each table operation its value-level
  meaning, as functions over rows, and holds the lemmas about them:
  - column lookup by first name match;
  - the insert check;
  - WHERE filtering and counting;
  - projection, and when a named projection resolves;
  - the UPDATE rewrite;
  - the outcome of a DELETE and of an UPDATE.
- `table.dfy` (module `Tables`) holds the `Table` class and the data
  directory:
  - `Table` has a `const` schema and a mutable `rows` field.
  - Its methods update `rows` in place. Each one is proved against the
    functions of `Query`: `Insert` and `Update` with their loops and
    invariants, `Delete` by reassigning the field.
  - The data directory is a class holding one snapshot per table name.
    Saving overwrites the table's entry, and loading builds a fresh table
    from the entry.
- `database.dfy` (module `Catalog`) holds the `Database` class. It keeps two
  invariants:
  - `Valid`: distinct names hold distinct tables, and every table has one
    value per column in each row.
  - `Synced`: the data directory holds exactly one snapshot per table, equal
    to the table in memory.

  Every method keeps both invariants. Every command changes only the table
  it names, and a command that fails changes neither a table nor the data
  directory.
- `scenario.dfy` (module `Scenario`) runs a session against one table. It
  creates `t(id INT, name TEXT)` and inserts two rows. Then it selects with
  WHERE, updates and selects one column, and deletes and selects the rest.
  Its contract states the three SELECT results and the UPDATE and DELETE
  counts.

The file system is modelled as the `DataDirectory` object passed to the
catalog's constructor. The source reads the fixed directory `data`
implicitly instead.

## Model

| member | source | states |
|---|---|---|
| Schema.HasType | storage/table.py:21-26 | a value has a column's type when it is an integer for `INT` and text for `TEXT`, the two `isinstance` tests |
| Query.Matches | storage/table.py:66 | whole-value equality with the condition value at the WHERE position, the test `row[i] == v` of SELECT, DELETE and UPDATE; on a shaped table the position is always in range |
| Query.WhereOfWrongTypeIsEmpty | storage/table.py:66 | a WHERE compares whole values, so on a well-typed table a condition value of the wrong type for its column (`id = "1"` on an INT column) keeps no row |
| Query.ColumnIndex | storage/table.py:63 | the position found holds a column of that name and no earlier column has it; None exactly when no column has the name |
| Query.FirstMisfit | storage/table.py:20-26 | None exactly when every value has its column's declared type; otherwise the first value of the wrong type |
| Query.InsertCheck | storage/table.py:14-29 | accepted exactly when the row has one value per column, each of the declared type; a wrong count gives the count error; otherwise a failure names the first misfit column and its expected type |
| Query.InsertKeepsTyping | storage/table.py:14-29 | on a well-typed table, an insert is accepted exactly when appending the row keeps the table well typed |
| Query.InsertsKeepTyping | storage/table.py:14-29 | any series of attempted inserts keeps a well-typed table well typed |
| Query.ConformingInsertsAppend | storage/table.py:27-29 | inserting conforming rows one by one appends exactly those rows, in insertion order |
| Query.Where | storage/table.py:66 | a row is kept exactly when it is one of the rows and its value at the WHERE position equals the value; never more rows than before |
| Query.WhereNot | storage/table.py:82 | a row survives exactly when it is one of the rows and does not match; never more rows than before |
| Query.WhereAppend | storage/table.py:66 | filtering distributes over concatenation, so the kept rows stay in their original order |
| Query.WhereNotAppend | storage/table.py:82 | the rows a DELETE keeps stay in their original order |
| Query.WherePartition | storage/table.py:81-83 | matching and non-matching rows together are all the rows, so the old length minus the new length is the number of matches |
| Query.CountMatches | storage/table.py:95-99 | the UPDATE loop's running count never exceeds the number of rows |
| Query.CountMatchesIsWhere | storage/table.py:95-101 | counting matches one row at a time, as the UPDATE loop does, gives the number of matching rows |
| Query.AllPositions | storage/table.py:53-54 | `*` projects onto every schema position: one position per column, the j-th being j |
| Query.SchemaIndices | storage/table.py:56 | a position is chosen exactly when its column's name is requested; positions are in range and strictly increasing, so the projection follows schema order |
| Query.Resolves | storage/table.py:57 | a named projection that passes the count check requests no more names than the schema has columns |
| Query.ProjectRow | storage/table.py:70 | a projected row has one value per chosen position, and every value comes from the row |
| Query.Project | storage/table.py:70 | one projected row per row, each with one value per chosen position |
| Query.ProjectAll | storage/table.py:70 | projecting every row onto all of its positions gives the rows back unchanged |
| Query.ResolvesIff | storage/table.py:56-58 | with distinct column names, the count check passes exactly when the requested names are distinct and each names a column |
| Query.DuplicateColumnMasksMissingName | storage/table.py:56-58 | with a duplicated column name, the count check passes although a requested name is missing from the schema |
| Query.UpdateRow | storage/table.py:96-98 | the row keeps its length and every position other than the SET one; a row that matches the WHERE holds the SET value at the SET position, and a row that does not match is left as it was |
| Query.UpdateRows | storage/table.py:95-99 | the row count is kept, and every row that does not match the WHERE is left as it was |
| Query.UpdateRowsAt | storage/table.py:95-99 | an update keeps the row count and row lengths, writes the value at the SET position of exactly the matching rows, and leaves every other position and row as it was |
| Query.UpdateKeepsShape | storage/table.py:95-99 | an update keeps every row at one value per column |
| Query.UpdateKeepsTyping | storage/table.py:95-99 | an update whose value has the SET column's declared type keeps a well-typed table well typed |
| Query.UpdateCanBreakTyping | storage/table.py:98 | an UPDATE can write a TEXT value into an INT column, since the SET value is not type checked |
| Query.DeleteOutcome | storage/table.py:82 | a DELETE only drops rows: every row left was a row before |
| Query.DeleteOutcomeMeaning | storage/table.py:72-83 | no WHERE gives the missing-WHERE error and an unknown column gives the column error, each with the rows unchanged; otherwise the non-matching rows remain, in order, and the result is the number of matching rows |
| Query.UpdateOutcome | storage/table.py:85-101 | an UPDATE succeeds exactly when both the SET and the WHERE column exist; a failure is the invalid-column error with the rows unchanged; the row count is always kept |
| Query.UpdateOutcomeMeaning | storage/table.py:85-101 | an unknown SET or WHERE column fails with the rows unchanged; otherwise the rows are rewritten as `UpdateRows` says, the result is the number of matching rows, and the table stays shaped |
| Tables.Table.constructor | storage/table.py:7-12 | a new table has the given schema and no rows |
| Tables.Table.Insert | storage/table.py:14-29 | the outcome is the insert check's; on success the rows are the old rows plus the new row at the end, on failure they are unchanged; the table stays shaped |
| Tables.Table.Select | storage/table.py:52-70 | `*` without WHERE returns all rows; an unresolved projection fails; a WHERE fails exactly when its column is unknown; on success each kept row, in order, is projected position by position onto the chosen columns |
| Tables.Table.SelectAll | storage/table.py:39-40 | returns what `SELECT *` without WHERE returns: every row in insertion order |
| Tables.Table.Delete | storage/table.py:72-83 | result and new rows are the DELETE outcome on the old rows; a failure leaves the rows unchanged; the table stays shaped |
| Tables.Table.Update | storage/table.py:85-101 | the loop's count and the rows rewritten in place are the UPDATE outcome on the old rows; a failure leaves the rows unchanged; the table stays shaped |
| Tables.Table.SaveToFile | storage/table.py:104-111 | the table's snapshot under its name is overwritten with its current schema and rows, and no other snapshot changes |
| Tables.Table.LoadFromFile | storage/table.py:113-122 | returns null exactly when no snapshot exists under the name; otherwise a fresh table whose schema and rows are the snapshot's |
| Catalog.Database.ResyncOne | storage/database.py:48-50 | after one table changed and its snapshot was rewritten, with every other table unchanged, the catalog is valid and in step with the data directory |
| Catalog.Database.constructor | storage/database.py:8-20 | startup builds one fresh table per snapshot, each equal to its snapshot; the catalog is valid and in step with the data directory |
| Catalog.Database.Reopen | storage/database.py:12-20 | starting again on the same data directory rebuilds the same table names, each with the same schema and rows |
| Catalog.Database.CreateTable | storage/database.py:36-42 | an existing name fails and nothing changes; otherwise a fresh empty table is registered and its empty snapshot is written, and no other table changes |
| Catalog.Database.InsertIntoTable | storage/database.py:44-50 | an unknown table fails; otherwise the table's insert outcome, with its snapshot written exactly when the insert succeeded; no other table changes |
| Catalog.Database.SelectFromTable | storage/database.py:65-71 | an unknown table fails; otherwise the table's own SELECT result; it changes nothing |
| Catalog.Database.DeleteFromTable | storage/database.py:73-80 | an unknown table fails; otherwise the DELETE outcome on that table, with the count dropped and its snapshot written only on success; a failure changes no table; no other table changes |
| Catalog.Database.UpdateTable | storage/database.py:82-88 | an unknown table fails; otherwise the UPDATE outcome on that table, with the count dropped and its snapshot written only on success; a failure changes no table; no other table changes |
| Catalog.Database.Execute | storage/database.py:22-34 | SELECT returns the table's rows; every other tag returns nothing on success; an unknown tag fails; CREATE on an existing name fails with the table-exists error, and otherwise succeeds and registers the name with the given schema and no rows; INSERT, DELETE and UPDATE on an unknown table fail with the table-missing error, and on an existing table fail with exactly the error of the table's own insert check or DELETE/UPDATE outcome; only CREATE adds a name; INSERT succeeds exactly on an existing table with a conforming row, which is then appended; DELETE and UPDATE leave the named table's rows as their outcome says and succeed exactly when it does; a failure or a SELECT changes nothing; no command touches another table |
| Scenario.Session | storage/table.py:52-101 | the session's SELECTs return `[[1, "a"]]`, then `[["c"]]`, then `[[2, "c"]]`; its UPDATE and its DELETE each report one row |

## Left out

- File I/O and JSON are not modelled. The data directory is a map from
  table names to snapshots. The `data/<name>.json` naming, `os.makedirs`,
  the directory listing and the file-name parsing in `load_tables` are left
  out.
- Failures of the file system are not modelled. A save always succeeds, so
  the window where memory and disk disagree after a failed write is not
  represented.
- Catalog.Database.constructor requires every snapshot to have one value
  per column in each row. The source trusts whatever the JSON holds. A
  hand-edited snapshot with short rows would make a later WHERE on that
  table raise `IndexError`, which the model does not represent. Type tags
  in snapshots are trusted, as in the source: loaded tables need not be
  well typed.
- `load_tables` (`storage/database.py:12-20`) does not catch a JSON parse
  error, so one malformed snapshot stops startup. Parsing is outside the
  model.
- The `print` calls in `storage/database.py` are left out, and so is
  `Table.__repr__`, which only formats output.
- The SQL parser (`parser/sql_parser.py`), the HTTP front end
  (`web_app.py`) and the REPL (`main.py`) are left out. `Command` follows
  the tags, table names, values and conditions of the dicts the parser
  produces.
- Column types from the parser are not modelled. Its `type` rule
  (`parser/sql_parser.py:96-97`) returns `str` of the rule's child list,
  which is never `"INT"` or `"TEXT"`. So, as the parser is written, a table
  created through SQL gets unknown column types, and the type check of
  `insert` (`storage/table.py:21-26`) never fires for it. The model keeps
  exactly the two declared types.
- Python treats `bool` as an `int` for `isinstance`, and the insert check
  skips any column type other than `INT` and `TEXT`. The model has exactly
  two value kinds and two column types instead.
- Tables.Table.SelectAll returns the rows as a value. The source returns a
  new list holding the table's own row lists, so a caller that mutated a
  returned row would change the table. That aliasing is not modelled.
- Tables.Table.Update replaces `rows[k]` in the sequence. The source
  mutates the row list in place. No other holder of a row list exists in
  the modelled core.
- Query.ProjectRow and Query.Project state only the length of their result
  (and, for ProjectRow, that each value comes from the row).
  Tables.Table.Select states the values position by position. A clause on
  Project saying that its values come from the row made the proof of Select
  markedly more expensive.
- Catalog.Database.Execute reports success or failure of DELETE and UPDATE
  but not their row counts. The source only prints those counts
  (`storage/database.py:79` and `:88`), and printing is left out.
- Concurrency is not modelled. The engine handles one command at a time.
