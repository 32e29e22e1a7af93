/**
 Data model shared by the location helpers of forecasttools: the jurisdiction
 reference table, dataframes as sequences of rows, and the error kinds the
 helpers raise.
 */
module Locations {

  /** One record of the jurisdiction reference table. */
  datatype Jurisdiction = Jurisdiction(
    locationCode: string,   // zero-padded FIPS code, or "US" for the nation
    shortName: string,      // two-letter abbreviation
    longName: string,       // full English name
    isState: bool)

  /** The reference table, in its stored row order. */
  type Table = seq<Jurisdiction>

  /** The string columns of the table a location can be written in. */
  datatype TableColumn = ShortName | LocationCode | LongName {

    /** The column's name in the table. */
    function Name(): string {
      match this
      case ShortName => "short_name"
      case LocationCode => "location_code"
      case LongName => "long_name"
    }

    /** The location format whose values this column holds. */
    function Format(): string {
      match this
      case ShortName => "abbr"
      case LocationCode => "hubverse"
      case LongName => "long_name"
    }
  }

  /** The value of column `c` in record `rec`. */
  function Field(rec: Jurisdiction, c: TableColumn): string {
    match c
    case ShortName => rec.shortName
    case LocationCode => rec.locationCode
    case LongName => rec.longName
  }

  /** The set of values column `c` takes over the table. */
  function KeySet(t: Table, c: TableColumn): set<string> {
    set k | 0 <= k < |t| :: Field(t[k], c)
  }

  /** No two records of the table share a value in column `c`. */
  predicate UniqueField(t: Table, c: TableColumn) {
    forall i, j :: 0 <= i < |t| && 0 <= j < |t| && Field(t[i], c) == Field(t[j], c) ==> i == j
  }

  /** Some record maps `v` in column `from` to `w` in column `to`. */
  predicate Translates(t: Table, from: TableColumn, to: TableColumn, v: string, w: string) {
    exists k :: 0 <= k < |t| && Field(t[k], from) == v && Field(t[k], to) == w
  }

  /** A dataframe row: column name to cell value. */
  type Row = map<string, string>

  /** A dataframe: its rows in order. */
  type Frame = seq<Row>

  /**
   Every row has column `col`. For a frame whose rows share one set of
   columns, as every polars frame does, this is membership of `col` in the
   frame's column list.
   */
  predicate HasColumn(df: Frame, col: string) {
    forall i :: 0 <= i < |df| ==> col in df[i]
  }

  /** The set of values column `col` takes over the frame. */
  function ColumnValues(df: Frame, col: string): set<string> {
    set i | 0 <= i < |df| && col in df[i] :: df[i][col]
  }

  /** The exceptions the helpers raise, by kind; message wording is not modelled. */
  datatype Error =
    | EmptyFrame
    | MissingColumn(column: string)
    | InvalidLocationValues(column: string, values: set<string>)
    | UnknownLocationFormat(format: string)
    | InvalidLocationFormat(format: string)
    | EmptyLocationVector
    | UnknownHub(hub: string, validHubs: seq<string>)

  /** A value, or the error the Python helper raises instead of returning it. */
  datatype Result<+T> = Success(value: T) | Failure(error: Error)
}
