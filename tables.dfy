/**
 The input frame as the aggregation sees it after a file has been read with
 every column as text, and the schema check both pipelines run first.
 */
module Tables {

  /** A frame: its header and one map from column name to cell text per row. */
  datatype Table = Table(columns: seq<string>, rows: seq<map<string, string>>)

  /** Every row has a cell for every column of the header, as in any DataFrame. */
  ghost predicate Rectangular(t: Table)
  {
    forall i, c :: 0 <= i < |t.rows| && c in t.columns ==> c in t.rows[i]
  }

  /** `all(col in df.columns for col in required)`. */
  predicate HasColumns(t: Table, required: seq<string>)
  {
    forall c :: c in required ==> c in t.columns
  }

  datatype Source = GrowthflowExport | WebinarJamExport

  /** The only failure the aggregation reports itself: a required column is missing. */
  datatype SchemaError = MissingColumns(source: Source, expected: seq<string>)

  datatype Result<T> = Ok(value: T) | Err(error: SchemaError)

  datatype Option<T> = None | Some(value: T)
}
