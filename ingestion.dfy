/**
 * The values the GSDP loader works on and a functional statement of what its
 * ingestion does: rows of the parsed CSV file, the year-column pattern, the
 * state-name table, the records, the year index, and the step-by-step
 * construction of the index (`IngestRows`) next to an independent
 * description of each year's list (`Records`).
 */
module Ingestion {
  import opened Wrappers
  import opened JsNumber

  const SlNoColumn: string := "Sl. No."
  const StateColumn: string := "State"

  predicate Distinct<T(==)>(s: seq<T>) {
    forall i, j :: 0 <= i < j < |s| ==> s[i] != s[j]
  }

  /**
   * A row as the CSV parser produces it: a JavaScript object from column
   * name to cell text. `keys` is the order `Object.keys` reports. Column
   * names that matter here are not integer-like, so that order is the header
   * order.
   */
  datatype Row = Row(keys: seq<string>, cells: map<string, string>)

  /** Own keys of an object are distinct and are exactly the keys it maps. */
  predicate IsObject(r: Row) {
    Distinct(r.keys) && (forall k :: k in r.cells ==> k in r.keys) && (forall k :: k in r.keys ==> k in r.cells)
  }

  type CsvRow = r: Row | IsObject(r) witness Row([], map[])

  /** One record of a year's list, serialised as `{sl_no, state, state_code, gsdp}`. */
  datatype GsdpRecord = GsdpRecord(slNo: string, state: string, stateCode: string, gsdp: Num)

  /**
   * The cached object `gsdpDataByYear`: `years` are its keys in insertion
   * order and `byYear` maps each of them to its list.
   */
  datatype YearIndex = YearIndex(years: seq<string>, byYear: map<string, seq<GsdpRecord>>)

  predicate WellFormed(idx: YearIndex) {
    Distinct(idx.years) && (forall k :: k in idx.byYear ==> k in idx.years) && (forall k :: k in idx.years ==> k in idx.byYear)
  }

  const EmptyIndex: YearIndex := YearIndex([], map[])

  // ---------------------------------------------------------------------
  // Year columns

  /** `/^\d{4}-\d{2}/`: four digits, a hyphen, two digits at the start. */
  predicate StartsWithYearSpan(k: string) {
    && |k| >= 7
    && IsDigit(k[0]) && IsDigit(k[1]) && IsDigit(k[2]) && IsDigit(k[3])
    && k[4] == '-'
    && IsDigit(k[5]) && IsDigit(k[6])
  }

  /** A key matching `/^\d{4}-\d{2}$/` or `/^\d{4}-\d{2} /`. */
  predicate IsYearColumn(k: string) {
    StartsWithYearSpan(k) && (|k| == 7 || k[7] == ' ')
  }

  /** The keys that are year columns, in key order. */
  function YearColumns(keys: seq<string>): (cols: seq<string>)
    ensures forall k :: k in cols <==> k in keys && IsYearColumn(k)
    ensures Distinct(keys) ==> Distinct(cols)
  {
    if keys == [] then []
    else (if IsYearColumn(keys[0]) then [keys[0]] else []) + YearColumns(keys[1..])
  }

  // ---------------------------------------------------------------------
  // Cells, the state check and state names

  /** `row[key]`: the cell text, or `undefined` (None) when the row lacks the key. */
  function Cell(row: CsvRow, key: string): Option<string>
  {
    if key in row.cells then Some(row.cells[key]) else None
  }

  /** The cell is a truthy string: present and not empty. */
  predicate Truthy(cell: Option<string>) {
    cell.Some? && cell.value != ""
  }

  /** The negation of the skip test `!row['Sl. No.'] || !row['State']`. */
  predicate HasStateInfo(row: CsvRow) {
    Truthy(Cell(row, SlNoColumn)) && Truthy(Cell(row, StateColumn))
  }

  /** `parseFloat(row[y])`; `parseFloat(undefined)` is NaN. */
  function ParseCell(row: CsvRow, y: string): Option<Num>
  {
    match Cell(row, y)
    case None => None
    case Some(text) => ParseFloat(text)
  }

  /** State names of the CSV file and the names the boundary file uses for them. */
  const StateNameMap: map<string, string> := map[
    "Andhra Pradesh" := "Andhra Pradesh",
    "Arunachal Pradesh" := "Arunachal Pradesh",
    "Assam" := "Assam",
    "Bihar" := "Bihar",
    "Chhattisgarh" := "Chhattisgarh",
    "Goa" := "Goa",
    "Gujarat" := "Gujarat",
    "Haryana" := "Haryana",
    "Himachal Pradesh" := "Himachal Pradesh",
    "Jammu & Kashmir" := "Jammu and Kashmir",
    "Jharkhand" := "Jharkhand",
    "Karnataka" := "Karnataka",
    "Kerala" := "Kerala",
    "Madhya Pradesh" := "Madhya Pradesh",
    "Maharashtra" := "Maharashtra",
    "Manipur" := "Manipur",
    "Meghalaya" := "Meghalaya",
    "Mizoram" := "Mizoram",
    "Nagaland" := "Nagaland",
    "Odisha" := "Orissa",
    "Punjab" := "Punjab",
    "Rajasthan" := "Rajasthan",
    "Sikkim" := "Sikkim",
    "Tamil Nadu" := "Tamil Nadu",
    "Telangana" := "Telangana",
    "Tripura" := "Tripura",
    "Uttar Pradesh" := "Uttar Pradesh",
    "Uttarakhand" := "Uttarakhand",
    "West Bengal" := "West Bengal"
  ]

  /**
   * `stateNameMap[stateName]` when that is truthy, `stateName` otherwise:
   * the lookup as the loader writes it.
   */
  function TableName(name: string): string
  {
    if name in StateNameMap && StateNameMap[name] != "" then StateNameMap[name] else name
  }

  /** The two entries of the table that actually rename a state. */
  const Renamed: map<string, string> := map["Odisha" := "Orissa", "Jammu & Kashmir" := "Jammu and Kashmir"]

  /**
   * The output name of a state: `Renamed` applied where it has an entry.
   * `CanonicalNameIsTableLookup` shows this agrees with `TableName` on every
   * name.
   */
  function CanonicalName(name: string): string
  {
    if name in Renamed then Renamed[name] else name
  }

  /** The record a row with state information emits for a parsed cell value. */
  function MakeRecord(row: CsvRow, v: Num): GsdpRecord
    requires HasStateInfo(row)
  {
    var slNo := row.cells[SlNoColumn];
    GsdpRecord(slNo, CanonicalName(row.cells[StateColumn]), slNo, v)
  }

  /** `rec` is the record the row emits in year `y`. */
  predicate RecordOf(row: CsvRow, y: string, rec: GsdpRecord) {
    && HasStateInfo(row)
    && ParseCell(row, y) == Some(rec.gsdp)
    && rec.slNo == row.cells[SlNoColumn]
    && rec.stateCode == rec.slNo
    && rec.state == CanonicalName(row.cells[StateColumn])
  }

  // ---------------------------------------------------------------------
  // Reference definition: each year's list

  /** What one row contributes to year `y`: its record, or nothing. */
  function Contribution(row: CsvRow, y: string): seq<GsdpRecord>
  {
    if HasStateInfo(row) then
      match ParseCell(row, y)
      case None => []
      case Some(v) => [MakeRecord(row, v)]
    else []
  }

  /** The records of year `y`: every row's contribution, in row order. */
  function Records(rows: seq<CsvRow>, y: string): seq<GsdpRecord>
  {
    if rows == [] then [] else Records(rows[..|rows| - 1], y) + Contribution(rows[|rows| - 1], y)
  }

  /** Some row passes the state check. */
  predicate AnyHasStateInfo(rows: seq<CsvRow>) {
    exists i :: 0 <= i < |rows| && HasStateInfo(rows[i])
  }

  // ---------------------------------------------------------------------
  // The ingestion, step by step

  /**
   * One step of the inner loop: create the year's list if the index lacks
   * the key (`if (!gsdpDataByYear[yearCol]) gsdpDataByYear[yearCol] = []`),
   * then push the record when the cell is a number.
   */
  function AddCell(idx: YearIndex, y: string, row: CsvRow): YearIndex
    requires HasStateInfo(row)
  {
    var created := if y in idx.byYear then idx else YearIndex(idx.years + [y], idx.byYear[y := []]);
    match ParseCell(row, y)
    case None => created
    case Some(v) => YearIndex(created.years, created.byYear[y := created.byYear[y] + [MakeRecord(row, v)]])
  }

  /** The inner loop over the year columns `cols`, for one row. */
  function AddCells(idx: YearIndex, cols: seq<string>, row: CsvRow): YearIndex
    requires HasStateInfo(row)
  {
    if cols == [] then idx else AddCell(AddCells(idx, cols[..|cols| - 1], row), cols[|cols| - 1], row)
  }

  /** The body of the outer loop: a row without state information is skipped. */
  function AddRow(idx: YearIndex, cols: seq<string>, row: CsvRow): YearIndex
  {
    if HasStateInfo(row) then AddCells(idx, cols, row) else idx
  }

  /** The outer loop over the rows. */
  function IngestRows(idx: YearIndex, cols: seq<string>, rows: seq<CsvRow>): YearIndex
  {
    if rows == [] then idx else AddRow(IngestRows(idx, cols, rows[..|rows| - 1]), cols, rows[|rows| - 1])
  }

  /** The index ingestion builds into an empty cache, year columns taken from the first row. */
  function BuildIndex(rows: seq<CsvRow>): YearIndex
    requires |rows| > 0
  {
    IngestRows(EmptyIndex, YearColumns(rows[0].keys), rows)
  }
}
