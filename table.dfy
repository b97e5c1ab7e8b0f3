// One table: a fixed schema and an ordered list of rows that insert, delete
// and update change in place; and the data directory its snapshots go to.

module Tables {
  import opened Schema
  import opened Query

  /** The data directory: at most one snapshot per table name. */
  class DataDirectory {
    var files: map<string, Snapshot>

    constructor (files: map<string, Snapshot>)
      ensures this.files == files
    {
      this.files := files;
    }
  }

  class Table {
    const columns: seq<Column>
    var rows: seq<Row>

    /** Every row has one value per column; no operation breaks this. */
    ghost predicate Valid()
      reads this
    {
      Shaped(columns, rows)
    }

    function ToSnapshot(): Snapshot
      reads this
    {
      Snapshot(columns, rows)
    }

    /** A new table with the given schema and no rows. */
    constructor (columns: seq<Column>)
      ensures this.columns == columns && rows == []
      ensures Valid() && WellTyped(columns, rows)
    {
      this.columns := columns;
      rows := [];
    }

    /**
     * Appends `values` as a new last row when it has one value per column,
     * each of its column's declared type; otherwise reports the count
     * mismatch or the first misfit and appends nothing.
     */
    method Insert(values: seq<Value>) returns (r: Result<()>)
      modifies this
      ensures r == InsertCheck(columns, values)
      ensures rows == if r.Ok? then old(rows) + [values] else old(rows)
      ensures old(Valid()) ==> Valid()
    {
      if |values| != |columns| {
        return Err(ColumnCountMismatch);
      }
      var typed: seq<Value> := [];
      var k := 0;
      while k < |columns|
        invariant 0 <= k <= |columns|
        invariant typed == values[..k]
        invariant forall j :: 0 <= j < k ==> HasType(values[j], columns[j].ctype)
      {
        var column, v := columns[k], values[k];
        match column.ctype {
          case INT =>
            if !v.IntV? {
              return Err(TypeMismatch(column.name, INT));
            }
          case TEXT =>
            if !v.TextV? {
              return Err(TypeMismatch(column.name, TEXT));
            }
        }
        typed := typed + [v];
        k := k + 1;
      }
      assert typed == values;
      rows := rows + [typed];
      r := Ok(());
    }

    /**
     * The rows that satisfy `where` (all rows when there is none), in table
     * order, each projected onto the requested columns in schema order
     * (onto every column for `["*"]`).
     */
    function Select(req: seq<string>, where: Option<Condition>): (r: Result<seq<Row>>)
      reads this
      requires Valid()
      ensures req == ["*"] && where.None? ==> r == Ok(rows)
      ensures req != ["*"] && !Resolves(columns, req) ==> r == Err(SelectedColumnMissing)
      ensures (req == ["*"] || Resolves(columns, req)) && where.None? ==> r.Ok?
      ensures (req == ["*"] || Resolves(columns, req)) && where.Some? ==>
        (r == Err(WhereColumnMissing(where.value.column)) <==> ColumnIndex(columns, where.value.column).None?)
      ensures (req == ["*"] || Resolves(columns, req)) && where.Some? ==>
        (r.Ok? <==> ColumnIndex(columns, where.value.column).Some?)
      ensures r.Ok? ==>
        var idxs := if req == ["*"] then AllPositions(|columns|) else SchemaIndices(columns, req);
        var kept := if where.None? then rows
                    else Where(rows, ColumnIndex(columns, where.value.column).value, where.value.value);
        |r.value| == |kept| &&
        forall k :: 0 <= k < |kept| ==>
          |r.value[k]| == |idxs| && |kept[k]| == |columns| &&
          forall j :: 0 <= j < |idxs| ==> r.value[k][j] == kept[k][idxs[j]]
    {
      var idxs := if req == ["*"] then AllPositions(|columns|) else SchemaIndices(columns, req);
      if req != ["*"] && |idxs| != |req| then Err(SelectedColumnMissing)
      else
        match where
        case None =>
          ProjectAll(rows, |columns|);
          Ok(Project(rows, idxs))
        case Some(cond) =>
          match ColumnIndex(columns, cond.column)
          case None => Err(WhereColumnMissing(cond.column))
          case Some(i) => Ok(Project(Where(rows, i, cond.value), idxs))
    }

    /** Every row, in insertion order: what `SELECT *` without WHERE returns. */
    function SelectAll(): (r: seq<Row>)
      reads this
      ensures Valid() ==> Select(["*"], None) == Ok(r)
    {
      rows
    }

    /**
     * Removes every row that satisfies `where` and reports how many went;
     * with no WHERE clause, or an unknown column, nothing is removed.
     */
    method Delete(where: Option<Condition>) returns (r: Result<nat>)
      requires Valid()
      modifies this
      ensures Outcome(r, rows) == DeleteOutcome(columns, old(rows), where)
      ensures r.Err? ==> rows == old(rows)
      ensures Valid()
    {
      if where.None? {
        return Err(DeleteWithoutWhere);
      }
      var cond := where.value;
      var index := ColumnIndex(columns, cond.column);
      if index.None? {
        return Err(ColumnNotFound(cond.column));
      }
      var originalLength := |rows|;
      rows := WhereNot(rows, index.value, cond.value);
      r := Ok(originalLength - |rows|);
    }

    /**
     * Writes `assignment.value` into the SET column of every row that
     * satisfies `where`, without checking its type, and reports how many
     * rows matched; an unknown SET or WHERE column changes nothing.
     */
    method Update(assignment: Assignment, where: Condition) returns (r: Result<nat>)
      requires Valid()
      modifies this
      ensures Outcome(r, rows) == UpdateOutcome(columns, old(rows), assignment, where)
      ensures r.Err? ==> rows == old(rows)
      ensures Valid()
    {
      var setIndex := ColumnIndex(columns, assignment.column);
      var whereIndex := ColumnIndex(columns, where.column);
      if setIndex.None? || whereIndex.None? {
        return Err(InvalidUpdateColumn);
      }
      var si, wi := setIndex.value, whereIndex.value;
      ghost var before := rows;
      assert forall j :: 0 <= j < |before| ==> |before[j]| == |columns| by {
        forall j | 0 <= j < |before| ensures |before[j]| == |columns| {
          assert before[j] in before;
        }
      }
      var count := 0;
      var k := 0;
      while k < |rows|
        invariant 0 <= k <= |rows| == |before|
        invariant forall j :: 0 <= j < |before| ==> |before[j]| == |columns|
        invariant forall j :: 0 <= j < k ==> rows[j] == UpdateRow(before[j], si, assignment.value, wi, where.value)
        invariant forall j :: k <= j < |rows| ==> rows[j] == before[j]
        invariant count == CountMatches(before[..k], wi, where.value)
      {
        assert before[..k + 1][..k] == before[..k];
        if rows[k][wi] == where.value {
          rows := rows[k := rows[k][si := assignment.value]];
          count := count + 1;
        }
        k := k + 1;
      }
      assert before[..k] == before;
      UpdateRowsEqual(rows, before, si, assignment.value, wi, where.value);
      UpdateKeepsShape(columns, before, si, assignment.value, wi, where.value);
      r := Ok(count);
    }

    /** Overwrites the table's snapshot in `dir` with its current schema and rows. */
    method SaveToFile(name: string, dir: DataDirectory)
      modifies dir
      ensures dir.files == old(dir.files)[name := ToSnapshot()]
    {
      dir.files := dir.files[name := ToSnapshot()];
    }

    /** A new table holding the snapshot saved under `name`, or null when there is none. */
    static method LoadFromFile(name: string, dir: DataDirectory) returns (t: Table?)
      ensures t == null <==> name !in dir.files
      ensures t != null ==> fresh(t) && t.ToSnapshot() == dir.files[name]
    {
      if name !in dir.files {
        return null;
      }
      var snapshot := dir.files[name];
      t := new Table(snapshot.columns);
      t.rows := snapshot.rows;
    }
  }
}
