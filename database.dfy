// The catalog: the map from table names to tables, the dispatch of a parsed
// command, and the order "check the table exists, change it in memory, then
// write its snapshot" that keeps the data directory in step with memory.

module Catalog {
  import opened Schema
  import opened Query
  import opened Tables

  /** A parsed statement as the SQL front end hands it over, by its type tag. */
  datatype Command =
    | Create(table: string, schema: seq<Column>)
    | Insert(table: string, values: seq<Value>)
    | Select(table: string, projection: seq<string>, where: Option<Condition>)
    | Delete(table: string, where: Option<Condition>)
    | Update(table: string, assignment: Assignment, condition: Condition)
    | Unsupported(tag: string)

  class Database {
    var tables: map<string, Table>
    const dir: DataDirectory

    /** Distinct names hold distinct tables, and every table is shaped. */
    ghost predicate Valid()
      reads this, tables.Values
    {
      && (forall a, b :: a in tables && b in tables && a != b ==> tables[a] != tables[b])
      && (forall n :: n in tables ==> tables[n].Valid())
    }

    /** The data directory holds exactly one snapshot per table, equal to the table in memory. */
    ghost predicate Synced()
      reads this, dir, tables.Values
    {
      && tables.Keys == dir.files.Keys
      && forall n :: n in tables ==> dir.files[n] == tables[n].ToSnapshot()
    }

    /**
     * After one table has changed in place and its snapshot has been
     * rewritten, while every other table kept its rows, the catalog is
     * valid and in step with the data directory again.
     */
    twostate lemma ResyncOne(name: string)
      requires old(Valid()) && old(Synced())
      requires tables == old(tables) && name in tables && tables[name].Valid()
      requires forall n :: n in tables && n != name ==> tables[n].rows == old(tables[n].rows)
      requires dir.files == old(dir.files)[name := tables[name].ToSnapshot()]
      ensures Valid() && Synced()
    {
    }

    /** Startup: one table per snapshot in the data directory. */
    constructor (dir: DataDirectory)
      requires forall n :: n in dir.files ==> Shaped(dir.files[n].columns, dir.files[n].rows)
      ensures this.dir == dir
      ensures Valid() && Synced()
      ensures forall n :: n in tables ==> fresh(tables[n])
    {
      var loaded: map<string, Table> := map[];
      var pending := dir.files.Keys;
      while pending != {}
        invariant pending <= dir.files.Keys
        invariant loaded.Keys == dir.files.Keys - pending
        invariant forall n :: n in loaded ==> fresh(loaded[n]) && loaded[n].ToSnapshot() == dir.files[n]
        invariant forall a, b :: a in loaded && b in loaded && a != b ==> loaded[a] != loaded[b]
        decreases pending
      {
        var name :| name in pending;
        var t := Table.LoadFromFile(name, dir);
        if t != null {
          loaded := loaded[name := t];
        }
        pending := pending - {name};
      }
      this.dir := dir;
      tables := loaded;
    }

    /**
     * Starting the engine again on the same data directory rebuilds the
     * same catalog: the same table names, each with the same schema and
     * the same rows in the same order.
     */
    method Reopen() returns (reloaded: Database)
      requires Valid() && Synced()
      ensures reloaded.dir == dir && reloaded.Valid() && reloaded.Synced()
      ensures reloaded.tables.Keys == tables.Keys
      ensures forall n :: n in tables ==>
        reloaded.tables[n].columns == tables[n].columns && reloaded.tables[n].rows == tables[n].rows
    {
      reloaded := new Database(dir);
    }

    /**
     * Registers an empty table under a new name and writes its snapshot;
     * an existing name is refused and nothing changes.
     */
    method CreateTable(name: string, schema: seq<Column>) returns (r: Result<()>)
      requires Valid() && Synced()
      modifies this, dir
      ensures Valid() && Synced()
      ensures name in old(tables) ==>
        r == Err(TableExists(name)) && tables == old(tables) && dir.files == old(dir.files)
      ensures name !in old(tables) ==>
        && r == Ok(())
        && tables.Keys == old(tables).Keys + {name}
        && fresh(tables[name]) && tables[name].columns == schema && tables[name].rows == []
        && dir.files == old(dir.files)[name := Snapshot(schema, [])]
      ensures forall n :: n in old(tables) ==> n in tables && tables[n] == old(tables[n])
    {
      if name in tables {
        return Err(TableExists(name));
      }
      var t := new Table(schema);
      tables := tables[name := t];
      t.SaveToFile(name, dir);
      r := Ok(());
    }

    /**
     * Appends a row to the named table and then writes its snapshot; when
     * the table is unknown or the row is refused, nothing changes.
     */
    method InsertIntoTable(name: string, values: seq<Value>) returns (r: Result<()>)
      requires Valid() && Synced()
      modifies dir, if name in tables then {tables[name]} else {}
      ensures tables == old(tables)
      ensures Valid() && Synced()
      ensures name !in tables ==> r == Err(TableMissing(name))
      ensures name in tables ==>
        && r == InsertCheck(tables[name].columns, values)
        && tables[name].rows == if r.Ok? then old(tables[name].rows) + [values] else old(tables[name].rows)
      ensures forall n :: n in tables && n != name ==> tables[n].rows == old(tables[n].rows)
      ensures dir.files == if r.Ok? then old(dir.files)[name := tables[name].ToSnapshot()] else old(dir.files)
    {
      if name !in tables {
        return Err(TableMissing(name));
      }
      var t := tables[name];
      r := t.Insert(values);
      if r.Err? {
        return;
      }
      t.SaveToFile(name, dir);
      ResyncOne(name);
    }

    /** The report of a DELETE or UPDATE as the catalog passes it on: success or the error, without the count. */
    static function Report(result: Result<nat>): Result<()>
    {
      if result.Ok? then Ok(()) else Err(result.error)
    }

    /** What a SELECT on the named table returns; reading changes nothing. */
    function SelectFromTable(name: string, projection: seq<string>, where: Option<Condition>): (r: Result<seq<Row>>)
      reads this, tables.Values
      requires Valid()
      ensures name !in tables ==> r == Err(TableMissing(name))
      ensures name in tables ==> r == tables[name].Select(projection, where)
      ensures name in tables && projection == ["*"] && where.None? ==> r == Ok(tables[name].rows)
    {
      if name !in tables then Err(TableMissing(name))
      else tables[name].Select(projection, where)
    }

    /**
     * Removes the matching rows of the named table and then writes its
     * snapshot; an unknown table, a missing WHERE clause or an unknown
     * column changes nothing.
     */
    method DeleteFromTable(name: string, where: Option<Condition>) returns (r: Result<()>)
      requires Valid() && Synced()
      modifies dir, if name in tables then {tables[name]} else {}
      ensures tables == old(tables)
      ensures Valid() && Synced()
      ensures name !in tables ==> r == Err(TableMissing(name))
      ensures name in tables ==>
        var o := DeleteOutcome(tables[name].columns, old(tables[name].rows), where);
        tables[name].rows == o.rows && r == Report(o.result)
      ensures r.Err? ==> forall n :: n in tables ==> tables[n].rows == old(tables[n].rows)
      ensures forall n :: n in tables && n != name ==> tables[n].rows == old(tables[n].rows)
      ensures dir.files == if r.Ok? then old(dir.files)[name := tables[name].ToSnapshot()] else old(dir.files)
    {
      if name !in tables {
        return Err(TableMissing(name));
      }
      var t := tables[name];
      var count := t.Delete(where);
      r := Report(count);
      if r.Err? {
        return;
      }
      t.SaveToFile(name, dir);
      ResyncOne(name);
    }

    /**
     * Rewrites the SET column of the matching rows of the named table and
     * then writes its snapshot; an unknown table or column changes nothing.
     */
    method UpdateTable(name: string, assignment: Assignment, condition: Condition) returns (r: Result<()>)
      requires Valid() && Synced()
      modifies dir, if name in tables then {tables[name]} else {}
      ensures tables == old(tables)
      ensures Valid() && Synced()
      ensures name !in tables ==> r == Err(TableMissing(name))
      ensures name in tables ==>
        var o := UpdateOutcome(tables[name].columns, old(tables[name].rows), assignment, condition);
        tables[name].rows == o.rows && r == Report(o.result)
      ensures r.Err? ==> forall n :: n in tables ==> tables[n].rows == old(tables[n].rows)
      ensures forall n :: n in tables && n != name ==> tables[n].rows == old(tables[n].rows)
      ensures dir.files == if r.Ok? then old(dir.files)[name := tables[name].ToSnapshot()] else old(dir.files)
    {
      if name !in tables {
        return Err(TableMissing(name));
      }
      var t := tables[name];
      var count := t.Update(assignment, condition);
      r := Report(count);
      if r.Err? {
        return;
      }
      t.SaveToFile(name, dir);
      ResyncOne(name);
    }

    /**
     * Runs one command. Only SELECT returns rows; every other command
     * returns nothing on success. A command that fails changes neither a
     * table nor the data directory, and no command touches a table other
     * than the one it names.
     */
    method Execute(cmd: Command) returns (r: Result<Option<seq<Row>>>)
      requires Valid() && Synced()
      modifies this, dir, tables.Values
      ensures Valid() && Synced()
      ensures cmd.Select? ==>
        r == match old(SelectFromTable(cmd.table, cmd.projection, cmd.where))
             case Ok(rows) => Ok(Some(rows))
             case Err(e) => Err(e)
      ensures !cmd.Select? && r.Ok? ==> r.value.None?
      ensures cmd.Unsupported? ==> r == Err(UnsupportedQuery(cmd.tag))
      ensures cmd.Create? ==> (r.Ok? <==> cmd.table !in old(tables))
      ensures cmd.Insert? ==>
        (r.Ok? <==> cmd.table in old(tables) && RowFits(old(tables)[cmd.table].columns, cmd.values))
      ensures r.Err? || cmd.Select? ==>
        && tables == old(tables) && dir.files == old(dir.files)
        && forall n :: n in tables ==> tables[n].rows == old(tables[n].rows)
      ensures forall n :: n in old(tables) && (cmd.Unsupported? || n != cmd.table) ==>
        n in tables && tables[n] == old(tables[n]) && tables[n].rows == old(tables[n].rows)
      ensures !cmd.Create? ==> tables == old(tables)
      ensures cmd.Create? && cmd.table in old(tables) ==> r == Err(TableExists(cmd.table))
      ensures (cmd.Insert? || cmd.Delete? || cmd.Update?) && cmd.table !in old(tables) ==>
        r == Err(TableMissing(cmd.table))
      ensures cmd.Create? && r.Ok? ==>
        && tables.Keys == old(tables).Keys + {cmd.table}
        && tables[cmd.table].columns == cmd.schema && tables[cmd.table].rows == []
      ensures cmd.Insert? && cmd.table in tables ==>
        tables[cmd.table].rows ==
          if r.Ok? then old(tables[cmd.table].rows) + [cmd.values] else old(tables[cmd.table].rows)
      ensures cmd.Delete? && cmd.table in tables ==>
        var o := DeleteOutcome(tables[cmd.table].columns, old(tables[cmd.table].rows), cmd.where);
        tables[cmd.table].rows == o.rows && (r.Ok? <==> o.result.Ok?)
      ensures cmd.Update? && cmd.table in tables ==>
        var o := UpdateOutcome(tables[cmd.table].columns, old(tables[cmd.table].rows), cmd.assignment, cmd.condition);
        tables[cmd.table].rows == o.rows && (r.Ok? <==> o.result.Ok?)
      ensures cmd.Insert? && cmd.table in old(tables) && r.Err? ==>
        r.error == InsertCheck(old(tables)[cmd.table].columns, cmd.values).error
      ensures cmd.Delete? && cmd.table in tables && r.Err? ==>
        r.error == DeleteOutcome(tables[cmd.table].columns, old(tables[cmd.table].rows), cmd.where).result.error
      ensures cmd.Update? && cmd.table in tables && r.Err? ==>
        r.error == UpdateOutcome(tables[cmd.table].columns, old(tables[cmd.table].rows), cmd.assignment, cmd.condition).result.error
    {
      match cmd {
        case Create(name, schema) =>
          var outcome := CreateTable(name, schema);
          r := if outcome.Ok? then Ok(None) else Err(outcome.error);
        case Insert(name, values) =>
          var outcome := InsertIntoTable(name, values);
          r := if outcome.Ok? then Ok(None) else Err(outcome.error);
        case Select(name, projection, where) =>
          var rows := SelectFromTable(name, projection, where);
          r := if rows.Ok? then Ok(Some(rows.value)) else Err(rows.error);
        case Delete(name, where) =>
          var outcome := DeleteFromTable(name, where);
          r := if outcome.Ok? then Ok(None) else Err(outcome.error);
        case Update(name, assignment, condition) =>
          var outcome := UpdateTable(name, assignment, condition);
          r := if outcome.Ok? then Ok(None) else Err(outcome.error);
        case Unsupported(tag) =>
          r := Err(UnsupportedQuery(tag));
      }
    }
  }

}
