# Excel category classifier — verified model

The application loads a spreadsheet of employees, lets an analyst define
named category rules ("kategori") made of inclusive integer ranges on chosen
columns ("filtreler"), keeps those rules in a list for the session, and
exports a workbook by writing first a sheet "Tüm Veri" holding the whole
table and then, for each rule in list order, a sheet named after the rule
holding the rows it selects (one write per rule; rules whose sheet names
coincide write to the same sheet, see "## Left out"). This project models that logic in Dafny and proves its properties:

- `table.dfy` (module `Table`): the table (columns, the set of numeric
  columns, rows as maps from column to integer value, an absent key being an
  empty cell), filters and rules.
- `segmentation.dfy` (module `Segmentation`): the per-rule filter loop as a
  method `SegmentRule`, proved equal to a reference definition `Select` (the
  rows passing every filter, in table order), and the laws of `Select`:
  conjunction, inclusive bounds, skipped non-numeric filters, order-preserving
  subsequence, monotonicity under added filters, empty result for min > max.
- `registry.dfy` (module `Registry`): the session rule list as a class
  `RuleList` with `Add` (validated append) and `RemoveAt` (`pop(i)`).
- `workbook.dfy` (module `Workbook`): default bounds of a chosen column, the
  30-character sheet name, and the workbook plan `Export`.

The application has no upsert-by-name, no categorical allow-set filters, no
sanitising of `:` or `/` in sheet names, no import or export of rule sets and
no summary report: adding a rule always appends, filters are integer ranges
only, sheet names are plain truncations. The model has none of these either.

## Model

| member | source | states |
|---|---|---|
| `Segmentation.SegmentRule` | app.py:105-113 | the loop that narrows a copy of the table once per filter (only for numeric columns) returns exactly `Select` of the table; a row is in the result iff it is a table row passing every filter; the result is an order-preserving subsequence of the table |
| `Segmentation.Keep` | app.py:110-113 | the boolean-mask indexing of one numeric filter keeps exactly the rows in its inclusive range, as an order-preserving subsequence |
| `Segmentation.SelectNoFilters` | app.py:106 | with no filter applied the subset is the whole, unchanged copy of the table |
| `Segmentation.SelectAddFilter` | app.py:108-113 | one more filter narrows the subset by that filter's inclusive mask when its column is numeric and leaves it unchanged otherwise |
| `Segmentation.SelectMembership` | app.py:108-113 | conjunction law: a row is in a rule's subset iff it is a table row and, for every filter on a numeric column, it has a value with min <= value <= max |
| `Segmentation.SelectIsSubsequence` | app.py:106-113 | a subset keeps table order and contains only table rows (order-preserving subsequence) |
| `Segmentation.SelectMonotone` | app.py:108-113 | a filter list at least as strict as another selects a subsequence of the other's subset |
| `Segmentation.AddFilterNarrows` | app.py:108-113 | adding a filter never enlarges a subset: the new subset is a subsequence of the old and no longer |
| `Segmentation.EmptyRangeEmptiesSubset` | app.py:109-113 | a filter on a numeric column with min > max makes the whole subset empty |
| `Segmentation.NonNumericFilterIgnored` | app.py:109 | a filter on a non-numeric column has no effect on the subset, wherever it stands in the rule |
| `Segmentation.FilterOrderIrrelevant` | app.py:108 | the order in which a rule's filters are applied does not change the subset |
| `Segmentation.BoundsInclusive` | app.py:110-113 | both bounds are inclusive: value == min and value == max are kept, min - 1 and max + 1 are dropped |
| `Registry.RuleList.constructor` | app.py:10-11 | a session starts with an empty rule list |
| `Registry.RuleList.Add` | app.py:64-73 | the rule is appended at the end (length + 1, earlier rules unchanged) exactly when the name is non-empty and at least one filter is set, even if a rule of that name exists; otherwise the list is unchanged; every stored rule satisfies the add check |
| `Registry.RuleList.RemoveAt` | app.py:91-93 | removing position i returns that rule, shortens the list by one and keeps the other rules in their relative order |
| `Workbook.SheetName` | app.py:115 | the sheet name has at most 30 characters, is a prefix of the rule name, equals the name when it has at most 30 characters and has exactly 30 otherwise |
| `Workbook.SheetNameCollision` | app.py:115 | two rule names give the same sheet name iff they are equal, or both have at least 30 characters and share the first 30 |
| `Workbook.StoredRuleSheetNamed` | app.py:65-70 | every rule stored in the session list passed the add check, so its sheet name is non-empty and is the name itself or its first 30 characters |
| `Workbook.DuplicateSheetNames` | app.py:115-116 | two rules whose names share their first 30 characters produce sheets of the same name (no de-duplication) |
| `Workbook.ColumnValues` | app.py:54-55 | the values of a column are exactly the values present in its rows, and are empty iff no row has a value there |
| `Workbook.Least` | app.py:54 | the column minimum is one of the values and no value is smaller |
| `Workbook.Greatest` | app.py:55 | the column maximum is one of the values and no value is larger |
| `Workbook.DefaultBounds` | app.py:51-55 | a non-numeric column offers (0, 100); a numeric column offers its minimum and maximum value (min <= max, every value between them, both attained); a numeric column with no value at all fails |
| `Workbook.DefaultFilterKeepsEveryValue` | app.py:51-61 | a filter left at a numeric column's default bounds keeps exactly the rows that have a value in that column |
| `Workbook.Export` | app.py:80-116 | nothing is exported while the rule list is empty; otherwise there is one sheet write more than there are rules, the first writes 'Tüm Veri' with the whole unchanged table, then write j+1 carries rule j's truncated name, the table header and that rule's subset, and every rule sheet is a subsequence of the table |

## Left out

- The Streamlit page (title, text inputs, multiselect, number inputs,
  expanders, buttons, `st.rerun`, success, error and info messages) is event
  plumbing: the model takes the rule name, the chosen filters and the
  position to delete as parameters.
- Reading the uploaded workbook, writing the result through pandas and
  xlsxwriter, `io.BytesIO` and the download button are library I/O: a parsed
  table is a parameter and the export is the list of (sheet name, header,
  rows) it would write.
- Column type inference (`is_numeric_dtype`) is not modelled: each table
  carries its set of numeric columns as given.
- Cell values are unbounded integers. Floating-point values, NaN comparison
  rules beyond "an empty cell never passes a numeric filter", the `int()`
  truncation of fractional minima and maxima, and 64-bit overflow are not
  modelled.
- `Workbook.Export` and `Segmentation.SegmentRule` require every filter
  column to be a column of the table: a rule kept from an earlier upload that
  names a missing column raises a key error in the application, which only
  its catch-all error handler sees; that path is not modelled.
- `Workbook.Export` is the sequence of sheet writes the export performs, not
  the sheets of the final file. The spreadsheet writer looks a sheet up by
  name before creating one, so a write whose sheet name exactly repeats an
  earlier one (two rules sharing their first 30 characters, or a rule named
  "Tüm Veri") goes into the sheet already made, with no error: the later
  rows are written over the earlier ones, and when the later subset is
  shorter, rows of the earlier one remain below it. That merge is writer
  behaviour and is not modelled; `Workbook.DuplicateSheetNames` shows where
  the repeat arises. Only a name that repeats an earlier one up to letter
  case, or one holding a character the format forbids (such as `:` or `/`),
  makes the writer raise, which reaches the application's catch-all error
  handler; those failures are not modelled either.
- The filters of a rule are a dictionary in the application; the model keeps
  them as an ordered list and does not impose distinct columns, since no
  property depends on it.
- Selecting a column and keeping the user's numbers for it (building the
  filter dictionary) is a UI step; its default values are `Workbook.DefaultBounds`.
- Sheet names are cut after 30 Unicode code points, as Python string slicing
  does; Dafny's `char` is a Unicode scalar value here.
