/**
  The data the classifier works on: a table read from an uploaded spreadsheet
  ("df" in app.py) and the category rules ("kurallar") an analyst defines over it.
 */
module Table {

  /** The conventional optional value; None stands for an operation that raises. */
  datatype Option<T> = None | Some(value: T)

  /** A column header of the spreadsheet. */
  type Column = string

  /** One row of the table: the integer value of every column that has one in
      this row. A column that is not a key of the map is an empty cell. */
  type Row = map<Column, int>

  /** A loaded spreadsheet: its columns in order, the columns whose type is
      numeric, and its rows in order. */
  datatype Dataset = Dataset(columns: seq<Column>, numeric: set<Column>, rows: seq<Row>)

  /** One entry of a rule's "filtreler": the inclusive range [lo, hi] imposed on a column. */
  datatype Filter = Filter(column: Column, lo: int, hi: int)

  /** A category rule: its name ("kategori") and its filters, in the order the
      columns were chosen. */
  datatype Rule = Rule(name: string, filters: seq<Filter>)

  /** Every filter of the rule names a column of the dataset. */
  predicate FiltersOn(d: Dataset, rule: Rule)
  {
    forall k :: 0 <= k < |rule.filters| ==> rule.filters[k].column in d.columns
  }
}
