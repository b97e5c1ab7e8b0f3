// The value-level meaning of the table operations: column lookup, the
// insert type check, WHERE filtering, projection and the UPDATE rewrite,
// each as a function over rows, with the lemmas that say what they mean.

module Query {
  import opened Schema

  // ---------------------------------------------------------------- lookup

  /** Position of the first column called `name`, or None when there is none. */
  function ColumnIndex(columns: seq<Column>, name: string): (r: Option<nat>)
    ensures r.Some? ==> r.value < |columns| && columns[r.value].name == name
    ensures r.Some? ==> forall j :: 0 <= j < r.value ==> columns[j].name != name
    ensures r.None? <==> forall j :: 0 <= j < |columns| ==> columns[j].name != name
  {
    if columns == [] then None
    else if columns[0].name == name then Some(0)
    else match ColumnIndex(columns[1..], name)
      case None => None
      case Some(k) => Some(k + 1)
  }

  // ---------------------------------------------------------- insert check

  /** Position of the first value whose type disagrees with its column's, or None. */
  function FirstMisfit(columns: seq<Column>, values: seq<Value>): (r: Option<nat>)
    requires |values| == |columns|
    ensures r.None? <==> RowFits(columns, values)
    ensures r.Some? ==> r.value < |values| && !HasType(values[r.value], columns[r.value].ctype)
    ensures r.Some? ==> forall k :: 0 <= k < r.value ==> HasType(values[k], columns[k].ctype)
  {
    if values == [] then None
    else if !HasType(values[0], columns[0].ctype) then Some(0)
    else match FirstMisfit(columns[1..], values[1..])
      case None => None
      case Some(k) => Some(k + 1)
  }

  /**
   * The outcome of inserting `values` into a table whose schema is `columns`:
   * the count check comes first, then the columns are checked left to right
   * and the first misfit is reported.
   */
  function InsertCheck(columns: seq<Column>, values: seq<Value>): (r: Result<()>)
    ensures r.Ok? <==> RowFits(columns, values)
    ensures |values| != |columns| ==> r == Err(ColumnCountMismatch)
    ensures |values| == |columns| && r.Err? ==>
      exists k :: 0 <= k < |values| && !HasType(values[k], columns[k].ctype)
        && r.error == TypeMismatch(columns[k].name, columns[k].ctype)
        && forall j :: 0 <= j < k ==> HasType(values[j], columns[j].ctype)
  {
    if |values| != |columns| then Err(ColumnCountMismatch)
    else match FirstMisfit(columns, values)
      case None => Ok(())
      case Some(k) => Err(TypeMismatch(columns[k].name, columns[k].ctype))
  }

  /**
   * On a well-typed table, an insert is accepted exactly when appending
   * the row keeps the table well typed: the insert checks are what the
   * typing invariant needs, no more and no less.
   */
  lemma InsertKeepsTyping(columns: seq<Column>, rows: seq<Row>, values: seq<Value>)
    requires WellTyped(columns, rows)
    ensures InsertCheck(columns, values).Ok? <==> WellTyped(columns, rows + [values])
  {
  }

  /** The rows after a series of inserts, each accepted or refused in turn. */
  function AfterInserts(columns: seq<Column>, rows: seq<Row>, batch: seq<seq<Value>>): seq<Row>
    decreases |batch|
  {
    if batch == [] then rows
    else
      var next := if InsertCheck(columns, batch[0]).Ok? then rows + [batch[0]] else rows;
      AfterInserts(columns, next, batch[1..])
  }

  /** However many inserts are tried, a well-typed table stays well typed. */
  lemma {:induction false} InsertsKeepTyping(columns: seq<Column>, rows: seq<Row>, batch: seq<seq<Value>>)
    requires WellTyped(columns, rows)
    ensures WellTyped(columns, AfterInserts(columns, rows, batch))
    decreases |batch|
  {
    if batch != [] {
      InsertKeepsTyping(columns, rows, batch[0]);
      var next := if InsertCheck(columns, batch[0]).Ok? then rows + [batch[0]] else rows;
      InsertsKeepTyping(columns, next, batch[1..]);
    }
  }

  /** Inserting conforming rows one by one appends exactly those rows, in insertion order. */
  lemma {:induction false} ConformingInsertsAppend(columns: seq<Column>, rows: seq<Row>, batch: seq<seq<Value>>)
    requires forall b :: b in batch ==> RowFits(columns, b)
    ensures AfterInserts(columns, rows, batch) == rows + batch
    decreases |batch|
  {
    if batch != [] {
      assert batch[0] in batch;
      ConformingInsertsAppend(columns, rows + [batch[0]], batch[1..]);
      assert rows + [batch[0]] + batch[1..] == rows + batch;
    }
  }

  // ------------------------------------------------------------- filtering

  /** The equality test `row[i] == v` of a WHERE clause. */
  predicate Matches(row: Row, i: nat, v: Value)
  {
    i < |row| && row[i] == v
  }

  /**
   * WHERE compares whole values, so on a well-typed table a condition value
   * of the wrong type (`id = "1"` on an INT column) keeps no row.
   */
  lemma WhereOfWrongTypeIsEmpty(columns: seq<Column>, rows: seq<Row>, i: nat, v: Value)
    requires WellTyped(columns, rows) && i < |columns| && !HasType(v, columns[i].ctype)
    ensures Where(rows, i, v) == []
  {
    forall row | row in rows
      ensures !Matches(row, i, v)
    {
      assert HasType(row[i], columns[i].ctype);
    }
  }

  /** The rows that satisfy `WHERE i = v`, in their original order. */
  function Where(rows: seq<Row>, i: nat, v: Value): (r: seq<Row>)
    ensures |r| <= |rows|
    ensures forall row :: row in r <==> row in rows && Matches(row, i, v)
  {
    if rows == [] then []
    else
      assert rows == [rows[0]] + rows[1..];
      (if Matches(rows[0], i, v) then [rows[0]] else []) + Where(rows[1..], i, v)
  }

  /** The rows that do not satisfy `WHERE i = v`, in their original order. */
  function WhereNot(rows: seq<Row>, i: nat, v: Value): (r: seq<Row>)
    ensures |r| <= |rows|
    ensures forall row :: row in r <==> row in rows && !Matches(row, i, v)
  {
    if rows == [] then []
    else
      assert rows == [rows[0]] + rows[1..];
      (if Matches(rows[0], i, v) then [] else [rows[0]]) + WhereNot(rows[1..], i, v)
  }

  /** Filtering distributes over concatenation, so it keeps the rows' relative order. */
  lemma {:induction false} WhereAppend(a: seq<Row>, b: seq<Row>, i: nat, v: Value)
    ensures Where(a + b, i, v) == Where(a, i, v) + Where(b, i, v)
  {
    if a == [] {
      assert a + b == b;
    } else {
      assert (a + b)[1..] == a[1..] + b;
      WhereAppend(a[1..], b, i, v);
    }
  }

  /** How many rows satisfy `WHERE i = v`, counted from the front as an UPDATE loop does. */
  function CountMatches(rows: seq<Row>, i: nat, v: Value): (c: nat)
    ensures c <= |rows|
  {
    if rows == [] then 0
    else CountMatches(rows[..|rows| - 1], i, v) + if Matches(rows[|rows| - 1], i, v) then 1 else 0
  }

  /** Counting the matches one by one gives the size of the filtered rows. */
  lemma {:induction false} CountMatchesIsWhere(rows: seq<Row>, i: nat, v: Value)
    ensures CountMatches(rows, i, v) == |Where(rows, i, v)|
    decreases |rows|
  {
    if rows != [] {
      var last := |rows| - 1;
      CountMatchesIsWhere(rows[..last], i, v);
      assert rows == rows[..last] + [rows[last]];
      WhereAppend(rows[..last], [rows[last]], i, v);
    }
  }

  /** The same for the complement: what a DELETE keeps stays in order. */
  lemma {:induction false} WhereNotAppend(a: seq<Row>, b: seq<Row>, i: nat, v: Value)
    ensures WhereNot(a + b, i, v) == WhereNot(a, i, v) + WhereNot(b, i, v)
  {
    if a == [] {
      assert a + b == b;
    } else {
      assert (a + b)[1..] == a[1..] + b;
      WhereNotAppend(a[1..], b, i, v);
    }
  }

  /** Every row either matches or does not: the two filters split the rows. */
  lemma {:induction false} WherePartition(rows: seq<Row>, i: nat, v: Value)
    ensures |Where(rows, i, v)| + |WhereNot(rows, i, v)| == |rows|
  {
    if rows != [] {
      WherePartition(rows[1..], i, v);
    }
  }

  // ------------------------------------------------------------ projection

  predicate Below(idxs: seq<nat>, n: nat)
  {
    forall j :: 0 <= j < |idxs| ==> idxs[j] < n
  }

  /** The positions 0, 1, ..., n-1: the projection of `SELECT *`. */
  function AllPositions(n: nat): (r: seq<nat>)
    ensures |r| == n && Below(r, n)
    ensures forall j :: 0 <= j < n ==> r[j] == j
  {
    seq(n, j => j)
  }

  /** Schema positions whose name is among the requested names, in schema order. */
  function SchemaIndices(columns: seq<Column>, req: seq<string>): (r: seq<nat>)
    ensures Below(r, |columns|)
    ensures forall k: nat :: k in r <==> k < |columns| && columns[k].name in req
    ensures forall a, b :: 0 <= a < b < |r| ==> r[a] < r[b]
    ensures |r| <= |columns|
    decreases |columns|
  {
    if columns == [] then []
    else
      var last := |columns| - 1;
      SchemaIndices(columns[..last], req) + (if columns[last].name in req then [last] else [])
  }

  /** The count check of a named SELECT: as many schema positions as requested names. */
  predicate Resolves(columns: seq<Column>, req: seq<string>): (b: bool)
    ensures b ==> |req| <= |columns|
  {
    |SchemaIndices(columns, req)| == |req|
  }

  function ProjectRow(row: Row, idxs: seq<nat>): (r: Row)
    requires Below(idxs, |row|)
    ensures |r| == |idxs|
    ensures forall x :: x in r ==> x in row
  {
    seq(|idxs|, j requires 0 <= j < |idxs| => row[idxs[j]])
  }

  function Project(rows: seq<Row>, idxs: seq<nat>): (r: seq<Row>)
    requires forall row :: row in rows ==> Below(idxs, |row|)
    ensures |r| == |rows|
    ensures forall k :: 0 <= k < |rows| ==> |r[k]| == |idxs|
  {
    seq(|rows|, k requires 0 <= k < |rows| => ProjectRow(rows[k], idxs))
  }

  /** Projecting onto every position of a row gives the row back. */
  lemma ProjectAll(rows: seq<Row>, n: nat)
    requires forall row :: row in rows ==> |row| == n
    ensures Project(rows, AllPositions(n)) == rows
  {
    var p := Project(rows, AllPositions(n));
    forall k | 0 <= k < |rows|
      ensures p[k] == rows[k]
    {
      assert rows[k] in rows;
      assert ProjectRow(rows[k], AllPositions(n)) == rows[k];
    }
  }

  // ----------------------------------- when a named projection resolves

  ghost function NameSet(columns: seq<Column>): set<string>
  {
    set k | 0 <= k < |columns| :: columns[k].name
  }

  ghost function ToSet(names: seq<string>): set<string>
  {
    set n | n in names
  }

  lemma {:induction false} SubsetSize<T>(a: set<T>, b: set<T>)
    requires a <= b
    ensures |a| <= |b|
    decreases a
  {
    if a != {} {
      var x :| x in a;
      SubsetSize(a - {x}, b - {x});
    }
  }

  lemma ToSetCons(names: seq<string>)
    requires names != []
    ensures ToSet(names) == ToSet(names[1..]) + {names[0]}
  {
  }

  lemma NoDuplicatesCons(names: seq<string>)
    requires names != [] && names[0] !in names[1..]
    ensures NoDuplicates(names) <==> NoDuplicates(names[1..])
  {
  }

  /** A list of names has at most as many distinct names as entries, equally many iff no repeats. */
  lemma {:induction false} ToSetSize(names: seq<string>)
    ensures |ToSet(names)| <= |names|
    ensures |ToSet(names)| == |names| <==> NoDuplicates(names)
  {
    if names != [] {
      var rest := names[1..];
      ToSetSize(rest);
      ToSetCons(names);
      if names[0] in rest {
        assert ToSet(names) == ToSet(rest);
        var b :| 0 <= b < |rest| && rest[b] == names[0];
        assert names[0] == names[b + 1];
      } else {
        assert names[0] !in ToSet(rest);
        NoDuplicatesCons(names);
      }
    }
  }

  lemma NameSetSnoc(columns: seq<Column>)
    requires columns != []
    ensures NameSet(columns) == NameSet(columns[..|columns| - 1]) + {columns[|columns| - 1].name}
  {
  }

  lemma IntersectAdd(s: set<string>, a: set<string>, x: string)
    requires x !in a
    ensures |s * (a + {x})| == |s * a| + (if x in s then 1 else 0)
  {
    if x in s {
      assert s * (a + {x}) == (s * a) + {x};
    } else {
      assert s * (a + {x}) == s * a;
    }
  }

  lemma DistinctSnoc(columns: seq<Column>)
    requires columns != [] && DistinctNames(columns)
    ensures DistinctNames(columns[..|columns| - 1])
    ensures columns[|columns| - 1].name !in NameSet(columns[..|columns| - 1])
  {
  }

  /** With distinct schema names, the count check counts the distinct requested names that exist. */
  lemma {:induction false} IndicesCount(columns: seq<Column>, req: seq<string>)
    requires DistinctNames(columns)
    ensures |SchemaIndices(columns, req)| == |ToSet(req) * NameSet(columns)|
    decreases |columns|
  {
    if columns != [] {
      var init := columns[..|columns| - 1];
      var x := columns[|columns| - 1].name;
      DistinctSnoc(columns);
      IndicesCount(init, req);
      NameSetSnoc(columns);
      IntersectAdd(ToSet(req), NameSet(init), x);
    }
  }

  /**
   * With distinct schema names, a named projection passes the count check
   * exactly when no name is requested twice and every requested name is a
   * column of the table.
   */
  lemma ResolvesIff(columns: seq<Column>, req: seq<string>)
    requires DistinctNames(columns)
    ensures Resolves(columns, req) <==>
      NoDuplicates(req) && forall n :: n in req ==> ColumnIndex(columns, n).Some?
  {
    var s, names := ToSet(req), NameSet(columns);
    IndicesCount(columns, req);
    ToSetSize(req);
    SubsetSize(s * names, s);
    if s <= names {
      assert s * names == s;
      forall n | n in req
        ensures ColumnIndex(columns, n).Some?
      {
        assert n in s;
        var k :| 0 <= k < |columns| && columns[k].name == n;
      }
    } else {
      var x :| x in s && x !in names;
      SubsetSize(s * names, s - {x});
      assert x in req;
    }
  }

  /**
   * Without distinct schema names the count check can be fooled: a schema
   * with two columns named "a" lets `SELECT a, b` through although there
   * is no column "b".
   */
  lemma DuplicateColumnMasksMissingName()
    ensures var columns := [Column("a", INT), Column("a", TEXT)];
      Resolves(columns, ["a", "b"]) && ColumnIndex(columns, "b").None?
  {
  }

  // ---------------------------------------------------------------- update

  /** One row after `SET si = v WHERE wi = wv`. */
  function UpdateRow(row: Row, si: nat, v: Value, wi: nat, wv: Value): (r: Row)
    requires si < |row|
    ensures |r| == |row|
    ensures forall j :: 0 <= j < |row| && j != si ==> r[j] == row[j]
    ensures r != row ==> Matches(row, wi, wv) && r[si] == v
    ensures Matches(row, wi, wv) ==> r[si] == v
  {
    if Matches(row, wi, wv) then row[si := v] else row
  }

  /** Every row after `SET si = v WHERE wi = wv`, with no type check of `v`. */
  function UpdateRows(rows: seq<Row>, si: nat, v: Value, wi: nat, wv: Value): (r: seq<Row>)
    requires forall row :: row in rows ==> si < |row|
    ensures |r| == |rows|
    ensures forall k :: 0 <= k < |rows| && !Matches(rows[k], wi, wv) ==> r[k] == rows[k]
  {
    seq(|rows|, k requires 0 <= k < |rows| => UpdateRow(rows[k], si, v, wi, wv))
  }

  /**
   * An update keeps the number of rows and their lengths, writes `v` at
   * position `si` of exactly the rows that satisfied `WHERE wi = wv`, and
   * leaves every other position and every other row as it was.
   */
  lemma UpdateRowsAt(rows: seq<Row>, si: nat, v: Value, wi: nat, wv: Value)
    requires forall row :: row in rows ==> si < |row|
    ensures var r := UpdateRows(rows, si, v, wi, wv);
      && |r| == |rows|
      && (forall k :: 0 <= k < |rows| ==> |r[k]| == |rows[k]|)
      && forall k, j :: 0 <= k < |rows| && 0 <= j < |rows[k]| ==>
           r[k][j] == if Matches(rows[k], wi, wv) && j == si then v else rows[k][j]
  {
  }

  lemma UpdateRowsEqual(r: seq<Row>, rows: seq<Row>, si: nat, v: Value, wi: nat, wv: Value)
    requires forall row :: row in rows ==> si < |row|
    requires |r| == |rows|
    requires forall k :: 0 <= k < |rows| ==> r[k] == UpdateRow(rows[k], si, v, wi, wv)
    ensures r == UpdateRows(rows, si, v, wi, wv)
  {
  }

  /** An update keeps every row's length, so it keeps a table shaped. */
  lemma UpdateKeepsShape(columns: seq<Column>, rows: seq<Row>, si: nat, v: Value, wi: nat, wv: Value)
    requires Shaped(columns, rows) && si < |columns|
    ensures Shaped(columns, UpdateRows(rows, si, v, wi, wv))
  {
  }

  /** An update whose value has the SET column's declared type keeps a table well typed. */
  lemma UpdateKeepsTyping(columns: seq<Column>, rows: seq<Row>, si: nat, v: Value, wi: nat, wv: Value)
    requires WellTyped(columns, rows) && si < |columns| && HasType(v, columns[si].ctype)
    ensures WellTyped(columns, UpdateRows(rows, si, v, wi, wv))
  {
    var r := UpdateRows(rows, si, v, wi, wv);
    UpdateRowsAt(rows, si, v, wi, wv);
    forall row | row in r
      ensures RowFits(columns, row)
    {
      var k :| 0 <= k < |r| && r[k] == row;
      assert rows[k] in rows;
      assert RowFits(columns, rows[k]);
    }
  }

  /** Since the SET value is not type checked, one update can leave a TEXT value in an INT column. */
  lemma UpdateCanBreakTyping()
    ensures var columns, rows := [Column("id", INT)], [[IntV(1)]];
      WellTyped(columns, rows) && !WellTyped(columns, UpdateRows(rows, 0, TextV("x"), 0, IntV(1)))
  {
    var columns, rows := [Column("id", INT)], [[IntV(1)]];
    var r := UpdateRows(rows, 0, TextV("x"), 0, IntV(1));
    UpdateRowsAt(rows, 0, TextV("x"), 0, IntV(1));
    assert r[0][0] == TextV("x");
    assert r[0] in r;
  }

  // -------------------------------------------------- DELETE and UPDATE as values

  /** What a DELETE or UPDATE statement leaves behind: its report and the table's rows. */
  datatype Outcome = Outcome(result: Result<nat>, rows: seq<Row>)

  /** DELETE on a table with schema `columns` and rows `rows`. */
  function DeleteOutcome(columns: seq<Column>, rows: seq<Row>, where: Option<Condition>): (o: Outcome)
    ensures forall row :: row in o.rows ==> row in rows
  {
    match where
    case None => Outcome(Err(DeleteWithoutWhere), rows)
    case Some(cond) =>
      match ColumnIndex(columns, cond.column)
      case None => Outcome(Err(ColumnNotFound(cond.column)), rows)
      case Some(i) =>
        var kept := WhereNot(rows, i, cond.value);
        Outcome(Ok(|rows| - |kept|), kept)
  }

  /**
   * A DELETE without WHERE, or on an unknown column, keeps every row and
   * says why; otherwise it keeps exactly the rows that do not match, in
   * order, and reports how many rows matched.
   */
  lemma DeleteOutcomeMeaning(columns: seq<Column>, rows: seq<Row>, where: Option<Condition>)
    ensures var o := DeleteOutcome(columns, rows, where);
      && (where.None? ==> o == Outcome(Err(DeleteWithoutWhere), rows))
      && (where.Some? && ColumnIndex(columns, where.value.column).None? ==>
            o == Outcome(Err(ColumnNotFound(where.value.column)), rows))
      && (where.Some? && ColumnIndex(columns, where.value.column).Some? ==>
            var i := ColumnIndex(columns, where.value.column).value;
            o.rows == WhereNot(rows, i, where.value.value) &&
            o.result == Ok(|Where(rows, i, where.value.value)|))
  {
    if where.Some? && ColumnIndex(columns, where.value.column).Some? {
      WherePartition(rows, ColumnIndex(columns, where.value.column).value, where.value.value);
    }
  }

  /** UPDATE on a shaped table with schema `columns` and rows `rows`. */
  function UpdateOutcome(columns: seq<Column>, rows: seq<Row>, assignment: Assignment, where: Condition): (o: Outcome)
    requires Shaped(columns, rows)
    ensures o.result.Err? ==> o.result == Err(InvalidUpdateColumn) && o.rows == rows
    ensures o.result.Ok? <==>
      ColumnIndex(columns, assignment.column).Some? && ColumnIndex(columns, where.column).Some?
    ensures |o.rows| == |rows|
  {
    match (ColumnIndex(columns, assignment.column), ColumnIndex(columns, where.column))
    case (Some(si), Some(wi)) =>
      Outcome(Ok(CountMatches(rows, wi, where.value)), UpdateRows(rows, si, assignment.value, wi, where.value))
    case _ => Outcome(Err(InvalidUpdateColumn), rows)
  }

  /**
   * An UPDATE naming an unknown SET or WHERE column keeps every row and
   * fails; otherwise it rewrites the matching rows, reports how many rows
   * matched, and leaves the table shaped.
   */
  lemma UpdateOutcomeMeaning(columns: seq<Column>, rows: seq<Row>, assignment: Assignment, where: Condition)
    requires Shaped(columns, rows)
    ensures var o := UpdateOutcome(columns, rows, assignment, where);
      var si, wi := ColumnIndex(columns, assignment.column), ColumnIndex(columns, where.column);
      && (si.None? || wi.None? ==> o == Outcome(Err(InvalidUpdateColumn), rows))
      && (si.Some? && wi.Some? ==>
            o.rows == UpdateRows(rows, si.value, assignment.value, wi.value, where.value) &&
            o.result == Ok(|Where(rows, wi.value, where.value)|))
      && Shaped(columns, o.rows)
  {
    var si, wi := ColumnIndex(columns, assignment.column), ColumnIndex(columns, where.column);
    if si.Some? && wi.Some? {
      CountMatchesIsWhere(rows, wi.value, where.value);
      UpdateKeepsShape(columns, rows, si.value, assignment.value, wi.value, where.value);
    }
  }
}
