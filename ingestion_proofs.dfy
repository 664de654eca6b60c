/**
 * What the ingestion promises, proved about the functional model in
 * `Ingestion`: the index built from the rows has the first row's year
 * columns as its keys and, for every one of them, exactly the list that
 * `Records` describes, in row order.
 */
module IngestionProofs {
  import opened Wrappers
  import opened JsNumber
  import opened Ingestion

  /** The list a key had before a step, or the fresh `[]` it is given. */
  function Prior(idx: YearIndex, c: string): seq<GsdpRecord>
  {
    if c in idx.byYear then idx.byYear[c] else []
  }

  /**
   * `filter` keeps key order: the year columns of `a + b` are those of `a`
   * followed by those of `b`, so a year column written before another in the
   * header comes before it among the keys.
   */
  lemma {:induction false} YearColumnsAppend(a: seq<string>, b: seq<string>)
    ensures YearColumns(a + b) == YearColumns(a) + YearColumns(b)
  {
    if a == [] {
      assert a + b == b;
    } else {
      assert (a + b)[0] == a[0];
      assert (a + b)[1..] == a[1..] + b;
      YearColumnsAppend(a[1..], b);
    }
  }

  /**
   * A row contributes at most one record to a year: exactly when it passes
   * the state check and its cell for that year is a number, and then it is
   * the row's record for that year.
   */
  lemma ContributionCases(row: CsvRow, y: string)
    ensures var r := Contribution(row, y);
      && |r| <= 1
      && (r != [] <==> HasStateInfo(row) && ParseCell(row, y).Some?)
      && (r != [] ==> RecordOf(row, y, r[0]))
  {
  }

  /**
   * The state-name table renames `Odisha` to `Orissa` and `Jammu & Kashmir`
   * to `Jammu and Kashmir`, and leaves every other name, listed or not, as
   * it is.
   */
  lemma CanonicalNameIsTableLookup(name: string)
    ensures TableName(name) == CanonicalName(name)
    ensures TableName("Odisha") == "Orissa" && TableName("Jammu & Kashmir") == "Jammu and Kashmir"
    ensures name != "Odisha" && name != "Jammu & Kashmir" ==> TableName(name) == name
  {
  }

  /**
   * What a row emits does not depend on the year apart from the value: the
   * same serial number, state code and (canonical) state name in every year.
   */
  lemma SameRowSameIdentity(row: CsvRow, y: string, y': string, a: GsdpRecord, b: GsdpRecord)
    requires RecordOf(row, y, a) && RecordOf(row, y', b)
    ensures a.slNo == b.slNo == a.stateCode == b.stateCode == row.cells[SlNoColumn]
    ensures a.state == b.state == CanonicalName(row.cells[StateColumn])
  {
  }

  /** One step of the inner loop keeps the index well formed and changes only year `y`. */
  lemma {:induction false} AddCellEffect(idx: YearIndex, y: string, row: CsvRow)
    requires WellFormed(idx) && HasStateInfo(row)
    ensures var r := AddCell(idx, y, row);
      && WellFormed(r)
      && r.years == idx.years + (if y in idx.byYear then [] else [y])
      && y in r.byYear && r.byYear[y] == Prior(idx, y) + Contribution(row, y)
      && forall c :: c != y ==> (c in r.byYear <==> c in idx.byYear) && (c in idx.byYear ==> r.byYear[c] == idx.byYear[c])
  {
  }

  /**
   * The inner loop, for a row with state information, run on an index that
   * has none of the (distinct) columns yet: the columns become keys in column
   * order, each holding just the row's contribution.
   */
  lemma {:induction false} AddCellsFresh(idx: YearIndex, cols: seq<string>, row: CsvRow)
    requires WellFormed(idx) && idx.years == [] && Distinct(cols) && HasStateInfo(row)
    ensures var r := AddCells(idx, cols, row);
      && WellFormed(r)
      && r.years == cols
      && forall c :: c in r.byYear ==> r.byYear[c] == Contribution(row, c)
  {
    if cols != [] {
      var init, last := cols[..|cols| - 1], cols[|cols| - 1];
      assert Distinct(init);
      assert last !in init by {
        forall j | 0 <= j < |init| ensures init[j] != last { assert init[j] == cols[j]; }
      }
      AddCellsFresh(idx, init, row);
      AddCellEffect(AddCells(idx, init, row), last, row);
      assert init + [last] == cols;
    }
  }

  /**
   * The inner loop, run on an index that already has every column as a key:
   * the keys stay as they are and each column's list is extended by the
   * row's contribution.
   */
  lemma {:induction false} AddCellsExisting(idx: YearIndex, cols: seq<string>, row: CsvRow)
    requires WellFormed(idx) && Distinct(cols) && HasStateInfo(row)
    requires forall c :: c in cols ==> c in idx.byYear
    ensures var r := AddCells(idx, cols, row);
      && WellFormed(r)
      && r.years == idx.years
      && (forall c :: c in cols ==> r.byYear[c] == idx.byYear[c] + Contribution(row, c))
      && (forall c :: c !in cols ==> (c in r.byYear <==> c in idx.byYear) && (c in idx.byYear ==> r.byYear[c] == idx.byYear[c]))
  {
    if cols != [] {
      var init, last := cols[..|cols| - 1], cols[|cols| - 1];
      DistinctInit(cols);
      AddCellsExisting(idx, init, row);
      AddCellEffect(AddCells(idx, init, row), last, row);
      assert init + [last] == cols;
    }
  }

  /** Dropping the last element keeps a sequence distinct, and the last element is not among the others. */
  lemma DistinctInit<T>(s: seq<T>)
    requires Distinct(s) && s != []
    ensures Distinct(s[..|s| - 1]) && s[|s| - 1] !in s[..|s| - 1]
    ensures forall c :: c in s[..|s| - 1] ==> c in s
  {
    var init := s[..|s| - 1];
    forall j | 0 <= j < |init| ensures init[j] != s[|s| - 1] { assert init[j] == s[j]; }
  }

  lemma {:induction false} NoStateInfoNoRecords(rows: seq<CsvRow>, y: string)
    requires !AnyHasStateInfo(rows)
    ensures Records(rows, y) == []
  {
    if rows != [] {
      var init := rows[..|rows| - 1];
      assert !AnyHasStateInfo(init) by {
        forall i | 0 <= i < |init| ensures !HasStateInfo(init[i]) { assert init[i] == rows[i]; }
      }
      NoStateInfoNoRecords(init, y);
      assert !HasStateInfo(rows[|rows| - 1]);
    }
  }

  /**
   * Ingesting into an empty index with distinct year columns: once any row
   * passes the state check every column is a key, in column order (with an
   * empty list if no cell of it parsed), and each key's list is `Records`.
   */
  lemma {:induction false} IngestFromEmpty(cols: seq<string>, rows: seq<CsvRow>)
    requires Distinct(cols)
    ensures var r := IngestRows(EmptyIndex, cols, rows);
      && WellFormed(r)
      && r.years == (if AnyHasStateInfo(rows) then cols else [])
      && forall c :: c in r.byYear ==> r.byYear[c] == Records(rows, c)
  {
    if rows != [] {
      var init, last := rows[..|rows| - 1], rows[|rows| - 1];
      IngestFromEmpty(cols, init);
      var r0 := IngestRows(EmptyIndex, cols, init);
      assert AnyHasStateInfo(rows) <==> AnyHasStateInfo(init) || HasStateInfo(last) by {
        if AnyHasStateInfo(init) {
          var i :| 0 <= i < |init| && HasStateInfo(init[i]);
          assert rows[i] == init[i];
        }
      }
      assert rows == init + [last];
      if HasStateInfo(last) {
        if AnyHasStateInfo(init) {
          AddCellsExisting(r0, cols, last);
        } else {
          AddCellsFresh(r0, cols, last);
          forall c | c in cols ensures Records(rows, c) == Contribution(last, c) {
            NoStateInfoNoRecords(init, c);
          }
        }
      } else {
        forall c | c in r0.byYear ensures Records(rows, c) == Records(init, c) {
          assert Records(init, c) + [] == Records(init, c);
        }
      }
    }
  }

  /**
   * The index built from the rows: its keys are the year columns of the
   * first row, in that row's key order, when some row passes the state check
   * and none otherwise; each key's list is `Records`. No key comes from any
   * other row.
   */
  lemma {:induction false} BuildIndexSpec(rows: seq<CsvRow>)
    requires |rows| > 0
    ensures var r := BuildIndex(rows);
      && WellFormed(r)
      && r.years == (if AnyHasStateInfo(rows) then YearColumns(rows[0].keys) else [])
      && (forall y :: y in r.byYear ==> IsYearColumn(y) && y in rows[0].keys)
      && forall y :: y in r.byYear ==> r.byYear[y] == Records(rows, y)
  {
    IngestFromEmpty(YearColumns(rows[0].keys), rows);
  }

  lemma RecordsLast(rows: seq<CsvRow>, y: string)
    requires rows != []
    ensures Records(rows, y) == Records(rows[..|rows| - 1], y) + Contribution(rows[|rows| - 1], y)
  {
  }

  /** A file with a single row that passes the state check: one key per year column, holding that row's contribution. */
  lemma SingleRowIndex(row: CsvRow)
    requires HasStateInfo(row)
    ensures var idx := BuildIndex([row]);
      && WellFormed(idx)
      && idx.years == YearColumns(row.keys)
      && forall y :: y in idx.byYear ==> idx.byYear[y] == Contribution(row, y)
  {
    var rows := [row];
    assert rows[0] == row && rows[..0] == [];
    BuildIndexSpec(rows);
    forall y | y in BuildIndex(rows).byYear ensures Records(rows, y) == Contribution(row, y) {
      assert Records(rows[..0], y) == [];
    }
  }

  /** In a single-row file, a year column whose cell is a number holds exactly that row's record. */
  lemma SingleRowYear(row: CsvRow, y: string, v: Num)
    requires HasStateInfo(row) && y in YearColumns(row.keys) && ParseCell(row, y) == Some(v)
    ensures var idx := BuildIndex([row]);
      y in idx.byYear && idx.byYear[y] == [MakeRecord(row, v)]
  {
    SingleRowIndex(row);
    ContributionCases(row, y);
  }

  lemma {:induction false} RecordsAppend(a: seq<CsvRow>, b: seq<CsvRow>, y: string)
    ensures Records(a + b, y) == Records(a, y) + Records(b, y)
  {
    if b == [] {
      assert a + b == a;
      assert Records(a, y) + [] == Records(a, y);
    } else {
      var ab, init, last := a + b, b[..|b| - 1], b[|b| - 1];
      assert ab[..|ab| - 1] == a + init;
      assert ab[|ab| - 1] == last;
      RecordsLast(ab, y);
      RecordsLast(b, y);
      RecordsAppend(a, init, y);
      var ra, ri, c := Records(a, y), Records(init, y), Contribution(last, y);
      assert Records(ab, y) == (ra + ri) + c;
      assert Records(b, y) == ri + c;
      assert (ra + ri) + c == ra + (ri + c);
    }
  }

  /**
   * A year's records are those of the rows before row `i`, then row `i`'s
   * own contribution, then those of the rows after it: order follows rows,
   * and what a row contributes depends on that row alone.
   */
  lemma {:induction false} RecordsSplit(rows: seq<CsvRow>, i: nat, y: string)
    requires i < |rows|
    ensures Records(rows, y) == Records(rows[..i], y) + Contribution(rows[i], y) + Records(rows[i + 1..], y)
  {
    assert rows == rows[..i] + [rows[i]] + rows[i + 1..];
    RecordsAppend(rows[..i] + [rows[i]], rows[i + 1..], y);
    RecordsAppend(rows[..i], [rows[i]], y);
    assert [rows[i]][..0] == [];
  }

  /** Every record of a year is the record some row emits for that year. */
  lemma {:induction false} RecordsSound(rows: seq<CsvRow>, y: string)
    ensures forall k :: 0 <= k < |Records(rows, y)| ==>
      exists i :: 0 <= i < |rows| && RecordOf(rows[i], y, Records(rows, y)[k])
  {
    if rows != [] {
      var init, last := rows[..|rows| - 1], rows[|rows| - 1];
      RecordsSound(init, y);
      var rs := Records(rows, y);
      assert rs == Records(init, y) + Contribution(last, y);
      ContributionCases(last, y);
      forall k | 0 <= k < |rs| ensures exists i :: 0 <= i < |rows| && RecordOf(rows[i], y, rs[k]) {
        if k < |Records(init, y)| {
          var i :| 0 <= i < |init| && RecordOf(init[i], y, Records(init, y)[k]);
          assert rows[i] == init[i] && rs[k] == Records(init, y)[k];
          assert RecordOf(rows[i], y, rs[k]);
        } else {
          var j := |rows| - 1;
          assert rs[k] == Contribution(last, y)[0];
          assert rows[j] == last && RecordOf(rows[j], y, rs[k]);
        }
      }
      assert forall k :: 0 <= k < |Records(rows, y)| ==>
        exists i :: 0 <= i < |rows| && RecordOf(rows[i], y, Records(rows, y)[k]);
    } else {
      assert Records(rows, y) == [];
    }
  }

  /** A row without `Sl. No.` or `State` can be deleted without changing any year's records. */
  lemma {:induction false} SkippedRowContributesNothing(rows: seq<CsvRow>, i: nat, y: string)
    requires i < |rows| && !HasStateInfo(rows[i])
    ensures Records(rows, y) == Records(rows[..i] + rows[i + 1..], y)
  {
    RecordsSplit(rows, i, y);
    RecordsAppend(rows[..i], rows[i + 1..], y);
    assert Contribution(rows[i], y) == [];
    assert Records(rows[..i], y) + [] == Records(rows[..i], y);
  }

  /**
   * A row after the first that fails the state check leaves no trace: the
   * index is the one built without it. (The first row always decides the year
   * columns, whatever its cells hold.)
   */
  lemma {:induction false} SkippedRowInvisible(rows: seq<CsvRow>, i: nat)
    requires 0 < i < |rows| && !HasStateInfo(rows[i])
    ensures BuildIndex(rows) == BuildIndex(rows[..i] + rows[i + 1..])
  {
    var rest := rows[..i] + rows[i + 1..];
    assert rest[0] == rows[0];
    AnyHasStateInfoWithout(rows, i);
    BuildIndexSpec(rows);
    BuildIndexSpec(rest);
    var a, b := BuildIndex(rows), BuildIndex(rest);
    forall y | y in a.byYear ensures a.byYear[y] == b.byYear[y] {
      SkippedRowContributesNothing(rows, i, y);
    }
    SameKeysSameLists(a, b);
  }

  /** Deleting a row that fails the state check does not change whether some row passes it. */
  lemma AnyHasStateInfoWithout(rows: seq<CsvRow>, i: nat)
    requires i < |rows| && !HasStateInfo(rows[i])
    ensures AnyHasStateInfo(rows) <==> AnyHasStateInfo(rows[..i] + rows[i + 1..])
  {
    var rest := rows[..i] + rows[i + 1..];
    if AnyHasStateInfo(rows) {
      var j :| 0 <= j < |rows| && HasStateInfo(rows[j]);
      if j < i { assert rest[j] == rows[j]; } else { assert rest[j - 1] == rows[j]; }
    }
    if AnyHasStateInfo(rest) {
      var j :| 0 <= j < |rest| && HasStateInfo(rest[j]);
      if j < i { assert rest[j] == rows[j]; } else { assert rest[j] == rows[j + 1]; }
    }
  }

  /** Two well-formed indexes with the same keys and the same list under each key are equal. */
  lemma SameKeysSameLists(a: YearIndex, b: YearIndex)
    requires WellFormed(a) && WellFormed(b) && a.years == b.years
    requires forall y :: y in a.byYear ==> a.byYear[y] == b.byYear[y]
    ensures a == b
  {
    assert a.byYear.Keys == b.byYear.Keys;
    assert a.byYear == b.byYear;
  }

  /**
   * A row that passes the state check but whose cell for year `y` is not a
   * number adds nothing to `y`, while each of its cells that is a number
   * adds the row's record to that cell's year.
   */
  lemma {:induction false} BadCellOnlyDropsItsYear(rows: seq<CsvRow>, i: nat, y: string, y': string, v: Num)
    requires i < |rows| && HasStateInfo(rows[i])
    requires ParseCell(rows[i], y).None? && ParseCell(rows[i], y') == Some(v)
    ensures Records(rows, y) == Records(rows[..i], y) + Records(rows[i + 1..], y)
    ensures Records(rows, y') == Records(rows[..i], y') + [MakeRecord(rows[i], v)] + Records(rows[i + 1..], y')
  {
    RecordsSplit(rows, i, y);
    RecordsSplit(rows, i, y');
    assert Contribution(rows[i], y) == [];
    assert Contribution(rows[i], y') == [MakeRecord(rows[i], v)];
    assert Records(rows[..i], y) + [] == Records(rows[..i], y);
  }

  /** A well-formed index without keys is the empty object. */
  lemma {:induction false} EmptyWellFormedIsEmpty(idx: YearIndex)
    requires WellFormed(idx) && idx.years == []
    ensures idx == EmptyIndex
  {
    assert idx.byYear == map[];
  }
}
