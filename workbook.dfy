/**
  The export step: the default bounds offered when a filter column is chosen,
  the sheet name of a rule, and the plan of the exported workbook (the whole
  table first, then one sheet per rule in list order).
 */
module Workbook {
  import opened Table
  import opened Segmentation
  import opened Registry

  /** Name of the first sheet, which holds the whole table. */
  const AllDataSheet: string := "Tüm Veri"

  /** Number of leading characters of a rule name used as its sheet name. */
  const SheetNameLength: nat := 30

  /** One sheet of the exported workbook: its name, its header and its rows. */
  datatype Sheet = Sheet(name: string, columns: seq<Column>, rows: seq<Row>)

  /** The sheet name of a rule: the first 30 characters of its name, or the whole
      name when it is shorter. No character is replaced and no suffix is added. */
  function SheetName(category: string): (name: string)
    ensures |name| <= SheetNameLength
    ensures name <= category
    ensures |category| <= SheetNameLength ==> name == category
    ensures |category| >= SheetNameLength ==> |name| == SheetNameLength
  {
    if |category| <= SheetNameLength then category else category[..SheetNameLength]
  }

  /** Two rule names get the same sheet name exactly when they are equal or
      share their first 30 characters (both being at least that long): no
      de-duplication is done. */
  lemma SheetNameCollision(a: string, b: string)
    ensures SheetName(a) == SheetName(b)
        <==> (if |a| < SheetNameLength || |b| < SheetNameLength then a == b
              else a[..SheetNameLength] == b[..SheetNameLength])
  {
    if |a| < SheetNameLength || |b| < SheetNameLength {
      if SheetName(a) == SheetName(b) {
        assert |SheetName(a)| < SheetNameLength || |SheetName(b)| < SheetNameLength;
      }
    } else {
      assert SheetName(a) == a[..SheetNameLength] && SheetName(b) == b[..SheetNameLength];
    }
  }

  /** The values present in a column, in row order (empty cells skipped). */
  function ColumnValues(rows: seq<Row>, col: Column): (vs: seq<int>)
    ensures forall i :: 0 <= i < |rows| && col in rows[i] ==> rows[i][col] in vs
    ensures forall v :: v in vs ==> exists i :: 0 <= i < |rows| && col in rows[i] && rows[i][col] == v
    ensures vs == [] <==> forall i :: 0 <= i < |rows| ==> col !in rows[i]
  {
    if rows == [] then []
    else
      var rest := ColumnValues(rows[1..], col);
      assert forall v :: v in rest ==> exists i :: 1 <= i < |rows| && col in rows[i] && rows[i][col] == v by {
        forall v | v in rest ensures exists i :: 1 <= i < |rows| && col in rows[i] && rows[i][col] == v {
          var i :| 0 <= i < |rows[1..]| && col in rows[1..][i] && rows[1..][i][col] == v;
          assert rows[i + 1] == rows[1..][i];
        }
      }
      assert forall i :: 1 <= i < |rows| ==> rows[i] == rows[1..][i - 1];
      (if col in rows[0] then [rows[0][col]] else []) + rest
  }

  /** The smallest of a non-empty list of values. */
  function Least(vs: seq<int>): (m: int)
    requires vs != []
    ensures m in vs && forall v :: v in vs ==> m <= v
  {
    if |vs| == 1 then vs[0]
    else
      var r := Least(vs[1..]);
      assert forall v :: v in vs ==> v == vs[0] || v in vs[1..];
      if vs[0] <= r then vs[0] else r
  }

  /** The largest of a non-empty list of values. */
  function Greatest(vs: seq<int>): (m: int)
    requires vs != []
    ensures m in vs && forall v :: v in vs ==> v <= m
  {
    if |vs| == 1 then vs[0]
    else
      var r := Greatest(vs[1..]);
      assert forall v :: v in vs ==> v == vs[0] || v in vs[1..];
      if vs[0] >= r then vs[0] else r
  }

  /** The bounds offered when a column is chosen for a filter: (0, 100) for a
      non-numeric column, the column's smallest and largest value for a numeric
      one. A numeric column without any value has no minimum, and converting
      it to an integer raises: that is None. */
  function DefaultBounds(d: Dataset, col: Column): (b: Option<(int, int)>)
    ensures col !in d.numeric ==> b == Some((0, 100))
    ensures col in d.numeric ==> (b.None? <==> forall i :: 0 <= i < |d.rows| ==> col !in d.rows[i])
    ensures col in d.numeric && b.Some? ==>
              && b.value.0 <= b.value.1
              && (forall i :: 0 <= i < |d.rows| && col in d.rows[i] ==> b.value.0 <= d.rows[i][col] <= b.value.1)
              && (exists i :: 0 <= i < |d.rows| && col in d.rows[i] && d.rows[i][col] == b.value.0)
              && (exists i :: 0 <= i < |d.rows| && col in d.rows[i] && d.rows[i][col] == b.value.1)
  {
    if col !in d.numeric then Some((0, 100))
    else
      var vs := ColumnValues(d.rows, col);
      if vs == [] then None else Some((Least(vs), Greatest(vs)))
  }

  /** A filter left at the default bounds of a numeric column keeps every row
      that has a value in that column and only those. */
  lemma DefaultFilterKeepsEveryValue(d: Dataset, col: Column, row: Row)
    requires col in d.numeric && DefaultBounds(d, col).Some?
    ensures var (lo, hi) := DefaultBounds(d, col).value;
            row in Select(d.numeric, d.rows, [Filter(col, lo, hi)]) <==> row in d.rows && col in row
  {
    var (lo, hi) := DefaultBounds(d, col).value;
    var f := Filter(col, lo, hi);
    SelectMembership(d.numeric, d.rows, [f], row);
    assert [f][0] == f;
    if row in d.rows && col in row {
      var i :| 0 <= i < |d.rows| && d.rows[i] == row;
      assert InRange(row, f);
    }
  }

  /** The sheet written for one rule: its truncated name, the table's header and
      the rule's subset. */
  function RuleSheet(d: Dataset, rule: Rule): Sheet
  {
    Sheet(SheetName(rule.name), d.columns, Select(d.numeric, d.rows, rule.filters))
  }

  /** The sheet writes of the export, in order. Nothing is written while the
      rule list is empty; otherwise the first write is the whole, unchanged
      table and each rule, in list order, then writes one sheet holding its
      subset under its truncated name. */
  method Export(d: Dataset, rules: seq<Rule>) returns (workbook: Option<seq<Sheet>>)
    requires forall j :: 0 <= j < |rules| ==> FiltersOn(d, rules[j])
    ensures workbook.None? <==> rules == []
    ensures workbook.Some? ==>
              && |workbook.value| == |rules| + 1
              && workbook.value[0] == Sheet(AllDataSheet, d.columns, d.rows)
              && (forall j :: 0 <= j < |rules| ==> workbook.value[j + 1] == RuleSheet(d, rules[j]))
              && (forall j :: 0 < j < |workbook.value| ==> Subsequence(workbook.value[j].rows, d.rows))
  {
    if |rules| == 0 {
      return None;
    }
    var sheets := [Sheet(AllDataSheet, d.columns, d.rows)];
    for j := 0 to |rules|
      invariant |sheets| == j + 1
      invariant sheets[0] == Sheet(AllDataSheet, d.columns, d.rows)
      invariant forall i :: 0 <= i < j ==> sheets[i + 1] == RuleSheet(d, rules[i])
    {
      var subset := SegmentRule(d, rules[j]);
      sheets := sheets + [Sheet(SheetName(rules[j].name), d.columns, subset)];
    }
    forall j | 0 < j < |sheets| ensures Subsequence(sheets[j].rows, d.rows) {
      SelectIsSubsequence(d.numeric, d.rows, rules[j - 1].filters);
    }
    workbook := Some(sheets);
  }

  /** A rule stored in the session list passed the add check, so the sheet it
      is exported to has a non-empty name: the rule's name, or its first 30
      characters. */
  lemma StoredRuleSheetNamed(list: RuleList, j: nat)
    requires list.Valid() && j < |list.rules|
    ensures SheetName(list.rules[j].name) != []
    ensures SheetName(list.rules[j].name) == list.rules[j].name
         || SheetName(list.rules[j].name) == list.rules[j].name[..SheetNameLength]
  {
  }

  /** Two rules whose names share their first 30 characters get sheets of the
      same name in the workbook. */
  lemma DuplicateSheetNames(d: Dataset, rules: seq<Rule>, i: nat, j: nat)
    requires i < |rules| && j < |rules|
    requires |rules[i].name| >= SheetNameLength && |rules[j].name| >= SheetNameLength
    requires rules[i].name[..SheetNameLength] == rules[j].name[..SheetNameLength]
    ensures RuleSheet(d, rules[i]).name == RuleSheet(d, rules[j]).name
  {
    SheetNameCollision(rules[i].name, rules[j].name);
  }
}
