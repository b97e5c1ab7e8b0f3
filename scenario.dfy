// A session against one table: CREATE t(id INT, name TEXT); two INSERTs;
// a SELECT with WHERE; an UPDATE and a SELECT of one column; a DELETE and a
// SELECT of what is left.

module Scenario {
  import opened Schema
  import opened Query
  import opened Tables

  const SessionColumns := [Column("id", INT), Column("name", TEXT)]
  const RowA: Row := [IntV(1), TextV("a")]
  const RowB: Row := [IntV(2), TextV("b")]
  const RowC: Row := [IntV(2), TextV("c")]

  lemma SessionInserts()
    ensures InsertCheck(SessionColumns, RowA) == Ok(()) && InsertCheck(SessionColumns, RowB) == Ok(())
  {
  }

  lemma SessionFirstSelect(t: Table)
    requires t.columns == SessionColumns && t.rows == [RowA, RowB]
    ensures t.Select(["*"], Some(Condition("id", IntV(1)))) == Ok([RowA])
  {
    assert ColumnIndex(SessionColumns, "id") == Some(0);
    assert Where([RowA, RowB], 0, IntV(1)) == [RowA] by {
      assert [RowA, RowB][1..][1..] == [];
    }
    ProjectAll([RowA], 2);
  }

  lemma SessionUpdate()
    ensures UpdateOutcome(SessionColumns, [RowA, RowB], Assignment("name", TextV("c")), Condition("id", IntV(2)))
         == Outcome(Ok(1), [RowA, RowC])
  {
    assert ColumnIndex(SessionColumns, "name") == Some(1);
    assert ColumnIndex(SessionColumns, "id") == Some(0);
    assert CountMatches([RowA, RowB], 0, IntV(2)) == 1 by {
      assert [RowA, RowB][..1] == [RowA] && [RowA][..0] == [];
      assert CountMatches([RowA], 0, IntV(2)) == 0;
    }
    var updated := UpdateRows([RowA, RowB], 1, TextV("c"), 0, IntV(2));
    assert updated[0] == RowA;
    assert updated[1] == RowC;
    assert updated == [RowA, RowC];
  }

  lemma SessionNameIndex()
    ensures SchemaIndices(SessionColumns, ["name"]) == [1]
  {
  }

  lemma SessionSecondRows()
    ensures Project(Where([RowA, RowC], 0, IntV(2)), [1]) == [[TextV("c")]]
  {
    assert Where([RowA, RowC], 0, IntV(2)) == [RowC] by {
      assert [RowA, RowC][1..][1..] == [];
    }
    assert ProjectRow(RowC, [1]) == [TextV("c")];
  }

  lemma SessionSecondSelect(t: Table)
    requires t.columns == SessionColumns && t.rows == [RowA, RowC]
    ensures t.Select(["name"], Some(Condition("id", IntV(2)))) == Ok([[TextV("c")]])
  {
    assert ColumnIndex(SessionColumns, "id") == Some(0);
    SessionNameIndex();
    SessionSecondRows();
    assert ["name"] != ["*"] by {
      assert "name"[0] != "*"[0];
    }
  }

  lemma SessionDelete()
    ensures DeleteOutcome(SessionColumns, [RowA, RowC], Some(Condition("id", IntV(1)))) == Outcome(Ok(1), [RowC])
  {
    assert ColumnIndex(SessionColumns, "id") == Some(0);
    assert [RowA, RowC][1..][1..] == [];
    assert WhereNot([RowA, RowC], 0, IntV(1)) == [RowC];
  }

  /**
   * A session on one table `t(id INT, name TEXT)`: insert (1, "a") and
   * (2, "b"), select the row with id 1, set name to "c" where id is 2 and
   * select that row's name, delete the row with id 1 and select what is left.
   */
  method Session()
    returns (first: Result<seq<Row>>, updated: Result<nat>, second: Result<seq<Row>>,
             deleted: Result<nat>, third: Result<seq<Row>>)
    ensures first == Ok([[IntV(1), TextV("a")]])
    ensures updated == Ok(1) && deleted == Ok(1)
    ensures second == Ok([[TextV("c")]])
    ensures third == Ok([[IntV(2), TextV("c")]])
  {
    var t := new Table(SessionColumns);
    SessionInserts();
    var inserted := t.Insert(RowA);
    inserted := t.Insert(RowB);
    assert t.rows == [RowA, RowB];
    SessionFirstSelect(t);
    first := t.Select(["*"], Some(Condition("id", IntV(1))));
    SessionUpdate();
    updated := t.Update(Assignment("name", TextV("c")), Condition("id", IntV(2)));
    assert t.rows == [RowA, RowC];
    SessionSecondSelect(t);
    second := t.Select(["name"], Some(Condition("id", IntV(2))));
    SessionDelete();
    deleted := t.Delete(Some(Condition("id", IntV(1))));
    assert t.rows == [RowC];
    third := t.Select(["*"], None);
  }
}
