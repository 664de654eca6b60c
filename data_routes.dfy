/**
 * The GSDP routes of `backend/routes/data.js`: `GET /gsdp/years` lists the
 * cached object's keys; `GET /gsdp/:year` answers with the list of the year
 * requested, or of the first key that starts with it, or `[]`. Each handler
 * awaits the loader and turns a rejection into a server error. Express, the
 * JSON serialisation and the console logging are not modelled.
 */
module DataRoutes {
  import opened Wrappers
  import opened JsNumber
  import opened Ingestion
  import opened IngestionProofs
  import opened DataLoader

  /** What a handler sends: the JSON body with status 200, or status 500 with the error's message. */
  datatype Response<T> = Ok(body: T) | ServerError(message: string, error: string)

  /** `s.startsWith(p)`. */
  predicate StartsWith(s: string, p: string) {
    |p| <= |s| && s[..|p|] == p
  }

  /** `keys.find(y => y.startsWith(year))`, as the index of the first key found. */
  function FindFirstStartingWith(keys: seq<string>, year: string): (r: Option<nat>)
    ensures r.Some? ==> r.value < |keys| && StartsWith(keys[r.value], year)
    ensures r.Some? ==> forall j :: 0 <= j < r.value ==> !StartsWith(keys[j], year)
    ensures r.None? <==> forall j :: 0 <= j < |keys| ==> !StartsWith(keys[j], year)
  {
    if keys == [] then None
    else if StartsWith(keys[0], year) then Some(0)
    else match FindFirstStartingWith(keys[1..], year)
      case None => None
      case Some(k) => Some(k + 1)
  }

  /**
   * The list `/gsdp/:year` answers with: the exact key when the object has it
   * (a list, even an empty one, is truthy), else the first key in key order
   * that starts with `year`, else `[]`.
   */
  function ResolveYear(idx: YearIndex, year: string): (r: seq<GsdpRecord>)
    requires WellFormed(idx)
    // nothing is made up or merged: `[]`, or the list of a key that starts with `year`
    ensures r == [] || exists y :: y in idx.byYear && StartsWith(y, year) && r == idx.byYear[y]
  {
    if year in idx.byYear then
      assert year[..|year|] == year;
      idx.byYear[year]
    else match FindFirstStartingWith(idx.years, year)
      case Some(k) => idx.byYear[idx.years[k]]
      case None => []
  }

  /** The handler of `GET /gsdp/years`, given the loader's outcome. */
  function YearsResponse(loaded: Result<YearIndex, LoadError>): (r: Response<seq<string>>)
    ensures r.Ok? <==> loaded.Success?
    ensures r.Ok? ==> r.body == loaded.value.years
    ensures r.ServerError? ==> r.message == "Server error" && r.error == Message(loaded.error)
  {
    match loaded
    case Success(idx) => Ok(idx.years)
    case Failure(e) => ServerError("Server error", Message(e))
  }

  /** The handler of `GET /gsdp/:year`, given the loader's outcome. */
  function YearResponse(loaded: Result<YearIndex, LoadError>, year: string): (r: Response<seq<GsdpRecord>>)
    requires loaded.Success? ==> WellFormed(loaded.value)
    ensures r.Ok? <==> loaded.Success?
    ensures r.Ok? ==> r.body == ResolveYear(loaded.value, year)
    ensures r.ServerError? ==> r.message == "Server error" && r.error == Message(loaded.error)
  {
    match loaded
    case Success(idx) => Ok(ResolveYear(idx, year))
    case Failure(e) => ServerError("Server error", Message(e))
  }

  // ---------------------------------------------------------------------
  // Year resolution

  /** An exact key wins over every prefix match. */
  lemma {:induction false} ExactYearWins(idx: YearIndex, year: string)
    requires WellFormed(idx) && year in idx.byYear
    ensures ResolveYear(idx, year) == idx.byYear[year]
  {
  }

  /**
   * Without an exact key, the answer is the list of the first key in key
   * order that starts with the year requested ("2017" finds "2017-18").
   */
  lemma {:induction false} FirstPrefixMatchWins(idx: YearIndex, year: string, k: nat)
    requires WellFormed(idx) && year !in idx.byYear
    requires k < |idx.years| && StartsWith(idx.years[k], year)
    requires forall j :: 0 <= j < k ==> !StartsWith(idx.years[j], year)
    ensures ResolveYear(idx, year) == idx.byYear[idx.years[k]]
  {
    var r := FindFirstStartingWith(idx.years, year);
    assert r.Some?;
  }

  /** A year that is no key and no key's prefix is answered with `[]`. */
  lemma {:induction false} UnknownYearIsEmpty(idx: YearIndex, year: string)
    requires WellFormed(idx)
    requires forall y :: y in idx.years ==> !StartsWith(y, year)
    ensures ResolveYear(idx, year) == []
  {
    assert StartsWith(year, year) by { assert year[..|year|] == year; }
    var r := FindFirstStartingWith(idx.years, year);
    assert r.None? by {
      forall j | 0 <= j < |idx.years| ensures !StartsWith(idx.years[j], year) {
        assert idx.years[j] in idx.years;
      }
    }
  }

  // ---------------------------------------------------------------------
  // The routes over a load

  /**
   * `/gsdp/years` after the first load of a file: the year columns of its
   * first row, in header order, when some row passes the state check, and
   * `[]` otherwise.
   */
  lemma {:induction false} YearsOfFirstLoad(rows: seq<CsvRow>)
    requires |rows| > 0
    ensures YearsResponse(LoadStep(EmptyIndex, Parsed(rows)).1)
      == Ok(if AnyHasStateInfo(rows) then YearColumns(rows[0].keys) else [])
  {
    BuildIndexSpec(rows);
  }

  /** A load that rejects makes both routes answer with a server error carrying its message. */
  lemma {:induction false} FailedLoadIsServerError(cached: YearIndex, src: Source, year: string)
    requires LoadStep(cached, src).1.Failure?
    ensures var e := LoadStep(cached, src).1.error;
      && YearsResponse(LoadStep(cached, src).1) == ServerError("Server error", Message(e))
      && YearResponse(LoadStep(cached, src).1, year) == ServerError("Server error", Message(e))
  {
  }

  /** `/gsdp/:year` after the first load of a file answers with the year resolved in that file's index. */
  lemma {:induction false} YearOfFirstLoad(rows: seq<CsvRow>, year: string)
    requires |rows| > 0
    ensures WellFormed(BuildIndex(rows))
    ensures YearResponse(LoadStep(EmptyIndex, Parsed(rows)).1, year) == Ok(ResolveYear(BuildIndex(rows), year))
  {
    BuildIndexSpec(rows);
  }

  /**
   * End to end: every record resolved for a year in the index of a file is
   * the record some row of the file emits for a year column that starts with
   * the year requested.
   */
  lemma {:induction false} ResolvedRecordsComeFromRows(rows: seq<CsvRow>, year: string)
    requires |rows| > 0
    ensures WellFormed(BuildIndex(rows))
    ensures var body := ResolveYear(BuildIndex(rows), year);
      forall k :: 0 <= k < |body| ==>
        exists y, i :: StartsWith(y, year) && IsYearColumn(y) && 0 <= i < |rows| && RecordOf(rows[i], y, body[k])
  {
    BuildIndexSpec(rows);
    var idx := BuildIndex(rows);
    var body := ResolveYear(idx, year);
    if body != [] {
      var y :| y in idx.byYear && StartsWith(y, year) && body == idx.byYear[y];
      RecordsOfYearColumn(rows, y, year, body);
    }
  }

  lemma {:induction false} RecordsOfYearColumn(rows: seq<CsvRow>, y: string, year: string, body: seq<GsdpRecord>)
    requires body == Records(rows, y) && StartsWith(y, year) && IsYearColumn(y)
    ensures forall k :: 0 <= k < |body| ==>
      exists y', i :: StartsWith(y', year) && IsYearColumn(y') && 0 <= i < |rows| && RecordOf(rows[i], y', body[k])
  {
    RecordsSound(rows, y);
    forall k | 0 <= k < |body|
      ensures exists y', i :: StartsWith(y', year) && IsYearColumn(y') && 0 <= i < |rows| && RecordOf(rows[i], y', body[k])
    {
      var i :| 0 <= i < |rows| && RecordOf(rows[i], y, body[k]);
    }
  }
}
