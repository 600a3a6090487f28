/** The tabular input the consolidation works on: pandas DataFrames read with
    `dtype=str` and `keep_default_na=False`, so every cell is text and an empty
    cell is the empty string. */
module Tables {

  /** One row of a table, as `DataFrame.iterrows()` or
      `to_dict(orient="records")` presents it: column name to cell text. */
  type Row = map<string, string>

  /** A DataFrame: its (already trimmed) column names and its rows in order. */
  datatype Frame = Frame(columns: seq<string>, rows: seq<Row>)

  function ColumnSet(f: Frame): set<string> {
    set c | c in f.columns
  }

  /** `row.get(column, "")`. A DataFrame is rectangular, so once the required
      columns are known to be present this is also `row[column]`. */
  function Cell(row: Row, column: string): string {
    if column in row then row[column] else ""
  }

  /** Which input a failure is about (the message names the file). */
  datatype Source = LicenseFile | ContractFile | FinanceFile

  /** The `ValueError` raised when a table lacks required columns; it lists
      the missing names. */
  datatype Error = MissingColumns(source: Source, missing: set<string>)

  datatype Result<+T> = Ok(value: T) | Err(error: Error)

  /** `required - set(df.columns)`: the required columns the frame lacks. */
  function Missing(required: set<string>, f: Frame): (m: set<string>)
    ensures m <= required
    ensures m == {} <==> required <= ColumnSet(f)
    ensures forall c | c in required :: c in m <==> c !in f.columns
  {
    var m := required - ColumnSet(f);
    assert m != {} ==> exists c :: c in m;
    assert m == {} ==> forall c | c in required :: c in ColumnSet(f) by {
      if m == {} {
        forall c | c in required ensures c in ColumnSet(f) {
          assert c !in m;
        }
      }
    }
    m
  }
}
