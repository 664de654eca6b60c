/**
 * `loadGsdpData`: the module-level cache `gsdpDataByYear` and the load that
 * fills it from the CSV file on first use.
 *
 * Reading the file is outside the model: what the CSV parser stream delivers
 * is a parameter, either the parsed rows in file order or the parser's own
 * `error` event (the only stream the `error` listener sits on). A load
 * that finds the cache already holding keys returns it untouched; otherwise
 * it ingests the rows straight into the cache and resolves with it.
 */
module DataLoader {
  import opened Wrappers
  import opened JsNumber
  import opened Ingestion
  import opened IngestionProofs

  /** What the `csv-parser` stream delivers: its `error` event, or every `data` row before `end`. */
  datatype Source = ParserError(reason: string) | Parsed(rows: seq<CsvRow>)

  /** Why the promise rejects. */
  datatype LoadError =
    | ParserFailed(reason: string)
      /** `Object.keys(results[0])` on a file without data rows throws a TypeError. */
    | MissingFirstRow

  /** The `message` of the rejection, as the routes report it. */
  function Message(e: LoadError): string
  {
    match e
    case ParserFailed(reason) => reason
    case MissingFirstRow => "Cannot convert undefined or null to object"
  }

  /**
   * One call of `loadGsdpData` as a function of the cache it finds and the
   * stream it reads: the cache afterwards and the promise's outcome.
   */
  function LoadStep(cached: YearIndex, src: Source): (out: (YearIndex, Result<YearIndex, LoadError>))
    // the promise resolves with the cache object itself
    ensures out.1.Success? ==> out.1.value == out.0
    // a rejected load leaves the cache as it found it, and it found it empty
    ensures out.1.Failure? ==> out.0 == cached && cached.years == []
  {
    if |cached.years| > 0 then (cached, Success(cached))
    else match src
      case ParserError(reason) => (cached, Failure(ParserFailed(reason)))
      case Parsed(rows) =>
        if |rows| == 0 then (cached, Failure(MissingFirstRow))
        else
          var idx := IngestRows(cached, YearColumns(rows[0].keys), rows);
          (idx, Success(idx))
  }

  /** The cache `gsdpDataByYear`, an object from year column to its list of records. */
  class GsdpCache {
    /** The keys of the object, in insertion order. */
    var years: seq<string>
    var byYear: map<string, seq<GsdpRecord>>

    function Index(): YearIndex
      reads this
    {
      YearIndex(years, byYear)
    }

    /** The object's keys are distinct year columns, each holding a list. */
    ghost predicate Valid()
      reads this
    {
      WellFormed(Index()) && forall y :: y in byYear ==> IsYearColumn(y)
    }

    /** `let gsdpDataByYear = {}`. */
    constructor ()
      ensures Valid() && Index() == EmptyIndex
    {
      years := [];
      byYear := map[];
    }

    /** `loadGsdpData()`, with the stream's outcome given as `src`. */
    method Load(src: Source) returns (r: Result<YearIndex, LoadError>)
      requires Valid()
      modifies this
      ensures Valid()
      ensures (Index(), r) == LoadStep(old(Index()), src)
    {
      if |years| > 0 {
        return Success(Index());
      }
      match src
      case ParserError(reason) =>
        return Failure(ParserFailed(reason));
      case Parsed(rows) =>
        if |rows| == 0 {
          return Failure(MissingFirstRow);
        }
        var cols := YearColumns(rows[0].keys);
        ghost var start := Index();
        var i := 0;
        while i < |rows|
          invariant 0 <= i <= |rows|
          invariant Valid()
          invariant Index() == IngestRows(start, cols, rows[..i])
        {
          var row := rows[i];
          assert rows[..i + 1][..i] == rows[..i];
          if HasStateInfo(row) {
            AddRowInPlace(cols, row);
          }
          i := i + 1;
        }
        assert rows[..|rows|] == rows;
        return Success(Index());
    }

    /** The body of `results.forEach`: the loop over the year columns for one row. */
    method AddRowInPlace(cols: seq<string>, row: CsvRow)
      requires Valid() && HasStateInfo(row)
      requires forall y :: y in cols ==> IsYearColumn(y)
      modifies this
      ensures Valid()
      ensures Index() == AddCells(old(Index()), cols, row)
    {
      ghost var start := Index();
      var j := 0;
      while j < |cols|
        invariant 0 <= j <= |cols|
        invariant Valid()
        invariant Index() == AddCells(start, cols[..j], row)
      {
        var y := cols[j];
        assert cols[..j + 1][..j] == cols[..j];
        AddCellInPlace(y, row);
        j := j + 1;
      }
      assert cols[..|cols|] == cols;
    }

    /** The body of `yearColumns.forEach`: create the year's list if needed, push the record if the cell is a number. */
    method AddCellInPlace(y: string, row: CsvRow)
      requires Valid() && HasStateInfo(row) && IsYearColumn(y)
      modifies this
      ensures Valid()
      ensures Index() == AddCell(old(Index()), y, row)
    {
      AddCellEffect(Index(), y, row);
      if y !in byYear {
        years := years + [y];
        byYear := byYear[y := []];
      }
      var gsdpValue := ParseCell(row, y);
      match gsdpValue
      case Some(v) =>
        byYear := byYear[y := byYear[y] + [MakeRecord(row, v)]];
      case None =>
    }
  }

  // ---------------------------------------------------------------------
  // What a load promises

  /**
   * The first load into the empty cache builds the index of the rows: the
   * year columns of the first row as keys (when some row passes the state
   * check) and each year's list as `Records` describes it.
   */
  lemma {:induction false} LoadIntoEmptyCache(cached: YearIndex, rows: seq<CsvRow>)
    requires WellFormed(cached) && cached.years == [] && |rows| > 0
    ensures LoadStep(cached, Parsed(rows)) == (BuildIndex(rows), Success(BuildIndex(rows)))
  {
    EmptyWellFormedIsEmpty(cached);
  }

  /**
   * A load fails exactly when the cache is empty and the parser stream emitted `error` or
   * delivered no row.
   */
  lemma {:induction false} LoadFailsIff(cached: YearIndex, src: Source)
    ensures LoadStep(cached, src).1.Failure? <==>
      cached.years == [] && (src.ParserError? || (src.Parsed? && src.rows == []))
  {
  }

  /**
   * Memoisation: once a load leaves keys in the cache, every later load
   * returns that same object and reads nothing, whatever the stream holds.
   */
  lemma {:induction false} LoadIsCached(cached: YearIndex, src: Source, later: Source)
    requires |LoadStep(cached, src).0.years| > 0
    ensures var after := LoadStep(cached, src).0;
      LoadStep(after, later) == (after, Success(after))
  {
  }

  /**
   * An ingestion that leaves the cache without keys (no row passes the state
   * check, or the first row has no year column) is not memoised: the next load
   * ingests its own rows afresh.
   */
  lemma {:induction false} EmptyResultIsNotCached(rows: seq<CsvRow>, later: seq<CsvRow>)
    requires |rows| > 0 && |later| > 0
    requires !AnyHasStateInfo(rows) || YearColumns(rows[0].keys) == []
    ensures LoadStep(EmptyIndex, Parsed(rows)).0 == EmptyIndex
    ensures LoadStep(LoadStep(EmptyIndex, Parsed(rows)).0, Parsed(later)).0 == BuildIndex(later)
  {
    BuildIndexSpec(rows);
    EmptyWellFormedIsEmpty(BuildIndex(rows));
  }

  /**
   * Two loads into a fresh cache return the index of the first stream's rows,
   * the second one without reading anything, as long as some row passes the
   * state check and the first row has a year column.
   */
  lemma {:induction false} SecondLoadReturnsFirstIndex(rows: seq<CsvRow>, later: Source)
    requires |rows| > 0 && AnyHasStateInfo(rows) && YearColumns(rows[0].keys) != []
    ensures var after := LoadStep(EmptyIndex, Parsed(rows)).0;
      after == BuildIndex(rows) && LoadStep(after, later) == (after, Success(BuildIndex(rows)))
  {
    BuildIndexSpec(rows);
  }
}
