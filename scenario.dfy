/**
 * A worked example: a file with header `Sl. No., State, 2016-17, 2017-18`
 * and the single row `1, Odisha, 120000, 135000`. The row is stated over
 * cell texts `t1` and `t2` whose parse is given, and the parse of `120000`
 * and `135000` is proved on its own.
 */
module GsdpScenario {
  import opened Wrappers
  import opened JsNumber
  import opened Ingestion
  import opened IngestionProofs
  import opened DataLoader
  import opened DataRoutes

  const Header: seq<string> := ["Sl. No.", "State", "2016-17", "2017-18"]

  /** The row `1, Odisha, t1, t2` under `Header`. */
  function OdishaRow(t1: string, t2: string): CsvRow
  {
    var r := Row(Header, map["Sl. No." := "1", "State" := "Odisha", "2016-17" := t1, "2017-18" := t2]);
    assert IsObject(r);
    r
  }

  /** The first cell of the example parses to 120000. */
  lemma {:induction false} FirstCellParses()
    ensures ParseFloat("120000") == Some(Finite(120000, 0))
  {
    assert NatToString(120000) == "120000";
    ParseFloatRendersNat(120000);
  }

  /** The second cell of the example parses to 135000. */
  lemma {:induction false} SecondCellParses()
    ensures ParseFloat("135000") == Some(Finite(135000, 0))
  {
    assert NatToString(135000) == "135000";
    ParseFloatRendersNat(135000);
  }

  lemma {:induction false} ScenarioColumns()
    ensures YearColumns(Header) == ["2016-17", "2017-18"]
  {
    assert !IsYearColumn(Header[0]) && !IsYearColumn(Header[1]);
    assert IsYearColumn(Header[2]) && IsYearColumn(Header[3]);
    assert Header[1..][1..][1..][1..] == [];
  }

  /** The index of the example file has the two year columns as keys. */
  lemma {:induction false} ScenarioKeys(row: CsvRow, t1: string, t2: string)
    requires row == OdishaRow(t1, t2)
    ensures var idx := BuildIndex([row]);
      WellFormed(idx) && idx.years == ["2016-17", "2017-18"]
  {
    ScenarioColumns();
    ScenarioRowFields(row, t1, t2);
    SingleRowIndex(row);
  }

  /** Each year column of the example holds the row's one record, with the cell's value. */
  lemma {:induction false} ScenarioYear(row: CsvRow, t1: string, t2: string, y: string, t: string, v: Num)
    requires row == OdishaRow(t1, t2)
    requires (y == "2016-17" && t == t1) || (y == "2017-18" && t == t2)
    requires ParseFloat(t) == Some(v)
    ensures var idx := BuildIndex([row]);
      y in idx.byYear && idx.byYear[y] == [GsdpRecord("1", "Orissa", "1", v)]
  {
    ScenarioColumns();
    ScenarioRowFields(row, t1, t2);
    assert Cell(row, y) == Some(t);
    SingleRowYear(row, y, v);
  }

  lemma {:induction false} ScenarioRowFields(row: CsvRow, t1: string, t2: string)
    requires row == OdishaRow(t1, t2)
    ensures row.keys == Header && HasStateInfo(row)
    ensures Cell(row, "2016-17") == Some(t1) && Cell(row, "2017-18") == Some(t2)
    ensures forall v :: MakeRecord(row, v) == GsdpRecord("1", "Orissa", "1", v)
  {
    var name := row.cells[StateColumn];
    assert name == "Odisha";
  }

  /**
   * After loading this file, with cells that parse to `v1` and `v2`: the
   * years are `2016-17, 2017-18`; `2016-17` holds the one record
   * `{sl_no: "1", state: "Orissa", state_code: "1", gsdp: v1}`; `2016`
   * finds the same list by prefix; `2020` finds nothing. With the example's
   * cells, `FirstCellParses` and `SecondCellParses` give 120000 and 135000.
   */
  lemma {:induction false} ScenarioResponses(row: CsvRow, t1: string, t2: string, v1: Num, v2: Num)
    requires row == OdishaRow(t1, t2) && ParseFloat(t1) == Some(v1) && ParseFloat(t2) == Some(v2)
    ensures var loaded := LoadStep(EmptyIndex, Parsed([row])).1;
      && loaded.Success? && WellFormed(loaded.value)
      && YearsResponse(loaded) == Ok(["2016-17", "2017-18"])
      && YearResponse(loaded, "2016-17") == Ok([GsdpRecord("1", "Orissa", "1", v1)])
      && YearResponse(loaded, "2017-18") == Ok([GsdpRecord("1", "Orissa", "1", v2)])
      && YearResponse(loaded, "2016") == Ok([GsdpRecord("1", "Orissa", "1", v1)])
      && YearResponse(loaded, "2020") == Ok([])
  {
    var rows := [row];
    ScenarioKeys(row, t1, t2);
    ScenarioYear(row, t1, t2, "2016-17", t1, v1);
    ScenarioYear(row, t1, t2, "2017-18", t2, v2);
    LoadIntoEmptyCache(EmptyIndex, rows);
    ScenarioResolution(BuildIndex(rows));
  }

  /** Year resolution in an index with the example's keys. */
  lemma {:induction false} ScenarioResolution(idx: YearIndex)
    requires WellFormed(idx) && idx.years == ["2016-17", "2017-18"]
    ensures ResolveYear(idx, "2016-17") == idx.byYear["2016-17"]
    ensures ResolveYear(idx, "2017-18") == idx.byYear["2017-18"]
    ensures ResolveYear(idx, "2016") == idx.byYear["2016-17"]
    ensures ResolveYear(idx, "2020") == []
  {
    assert idx.years[0] == "2016-17" && idx.years[1] == "2017-18";
    assert "2016-17" in idx.byYear && "2017-18" in idx.byYear;
    assert StartsWith(idx.years[0], "2016");
    assert "2016" !in idx.byYear;
    FirstPrefixMatchWins(idx, "2016", 0);
    assert idx.years[0][..4] == "2016" && idx.years[1][..4] == "2017";
    assert forall y :: y in idx.years ==> !StartsWith(y, "2020");
    UnknownYearIsEmpty(idx, "2020");
  }
}
