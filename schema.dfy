// The row/schema model of the engine: typed values, columns, rows, the
// snapshots the data directory holds, and the errors the engine raises.

module Schema {

  datatype Option<T> = None | Some(value: T)

  /** The two declared column types a CREATE statement accepts. */
  datatype ColType = INT | TEXT

  /** A stored value: an integer or a string. Values of different tags are never equal. */
  datatype Value = IntV(i: int) | TextV(s: string)

  datatype Column = Column(name: string, ctype: ColType)

  type Row = seq<Value>

  /** `WHERE column = value` */
  datatype Condition = Condition(column: string, value: Value)

  /** `SET column = value` */
  datatype Assignment = Assignment(column: string, value: Value)

  /** What a table's file in the data directory holds: its schema and all its rows. */
  datatype Snapshot = Snapshot(columns: seq<Column>, rows: seq<Row>)

  /** One constructor per exception the table and the catalog raise. */
  datatype Error =
    | ColumnCountMismatch                             // insert: wrong number of values
    | TypeMismatch(column: string, expected: ColType) // insert: value of the wrong type
    | SelectedColumnMissing                           // select: a projected name does not resolve
    | WhereColumnMissing(column: string)              // select: unknown WHERE column
    | DeleteWithoutWhere                              // delete: no WHERE clause
    | ColumnNotFound(column: string)                  // delete: unknown WHERE column
    | InvalidUpdateColumn                             // update: unknown SET or WHERE column
    | TableExists(table: string)                      // create on an existing name
    | TableMissing(table: string)                     // any other command on an unknown name
    | UnsupportedQuery(tag: string)                   // execute: unknown command tag

  datatype Result<T> = Ok(value: T) | Err(error: Error)

  /** The isinstance check an insert applies to a value bound for a column of type `t`. */
  predicate HasType(v: Value, t: ColType)
  {
    match t
    case INT => v.IntV?
    case TEXT => v.TextV?
  }

  /** `row` has one value per column, each of its column's declared type. */
  predicate RowFits(columns: seq<Column>, row: Row)
  {
    |row| == |columns| && forall k :: 0 <= k < |row| ==> HasType(row[k], columns[k].ctype)
  }

  /** Every row has one value per column (the types may disagree). */
  predicate Shaped(columns: seq<Column>, rows: seq<Row>)
  {
    forall row :: row in rows ==> |row| == |columns|
  }

  /** Every row has one value per column, each of the declared type. */
  predicate WellTyped(columns: seq<Column>, rows: seq<Row>)
  {
    forall row :: row in rows ==> RowFits(columns, row)
  }

  predicate DistinctNames(columns: seq<Column>)
  {
    forall a, b :: 0 <= a < b < |columns| ==> columns[a].name != columns[b].name
  }

  predicate NoDuplicates(names: seq<string>)
  {
    forall a, b :: 0 <= a < b < |names| ==> names[a] != names[b]
  }
}
