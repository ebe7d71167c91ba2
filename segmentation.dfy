/**
  The per-rule filter of the export step: starting from a copy of the whole
  table, every filter on a numeric column keeps the rows whose value lies in
  its inclusive range; filters on other columns are skipped.
 */
module Segmentation {
  import opened Table

  /** The mask of one filter: the row has a value in the column and
      lo <= value <= hi (both bounds inclusive). */
  predicate InRange(row: Row, f: Filter)
  {
    f.column in row && f.lo <= row[f.column] <= f.hi
  }

  /** A row passes a filter when the filter's column is not numeric (the filter
      is skipped) or when the row is in the filter's range. */
  predicate Passes(numeric: set<Column>, row: Row, f: Filter)
  {
    f.column in numeric ==> InRange(row, f)
  }

  /** A row passes every filter of the list. */
  predicate PassesAll(numeric: set<Column>, row: Row, fs: seq<Filter>)
  {
    forall k :: 0 <= k < |fs| ==> Passes(numeric, row, fs[k])
  }

  /** Reference definition of a rule's subset: the rows that pass every
      filter, in table order. */
  function Select(numeric: set<Column>, rows: seq<Row>, fs: seq<Filter>): seq<Row>
  {
    if rows == [] then []
    else (if PassesAll(numeric, rows[0], fs) then [rows[0]] else []) + Select(numeric, rows[1..], fs)
  }

  /** The boolean-mask indexing of one numeric filter: the rows in range, in order. */
  function Keep(rows: seq<Row>, f: Filter): (kept: seq<Row>)
    ensures forall r :: r in kept <==> r in rows && InRange(r, f)
    ensures Subsequence(kept, rows)
  {
    if rows == [] then []
    else
      var rest := Keep(rows[1..], f);
      assert rows == [rows[0]] + rows[1..];
      if InRange(rows[0], f) then
        SubsequenceCons(rows[0], rest, rows[1..]);
        [rows[0]] + rest
      else
        SubsequenceSkip(rows[0], rest, rows[1..]);
        rest
  }

  /** a is obtained from b by deleting elements: it is an order-preserving subsequence. */
  predicate Subsequence<T(==)>(a: seq<T>, b: seq<T>)
    decreases |b|
  {
    a == [] || (b != [] && ((a[0] == b[0] && Subsequence(a[1..], b[1..])) || Subsequence(a, b[1..])))
  }

  /** The subset of one rule, as the filter loop computes it: each filter on a
      numeric column narrows the current rows, the others leave them as they are. */
  method SegmentRule(d: Dataset, rule: Rule) returns (subset: seq<Row>)
    requires FiltersOn(d, rule)
    ensures subset == Select(d.numeric, d.rows, rule.filters)
    ensures forall row :: row in subset <==> row in d.rows && PassesAll(d.numeric, row, rule.filters)
    ensures Subsequence(subset, d.rows)
  {
    ghost var fs := rule.filters;
    subset := d.rows;
    SelectNoFilters(d.numeric, d.rows);
    assert fs[..0] == [];
    for k := 0 to |rule.filters|
      invariant subset == Select(d.numeric, d.rows, fs[..k])
    {
      var f := rule.filters[k];
      assert fs[..k + 1] == fs[..k] + [f];
      SelectAddFilter(d.numeric, d.rows, fs[..k], f);
      if f.column in d.numeric {
        subset := Keep(subset, f);
      }
    }
    assert fs[..|fs|] == fs;
    forall row
      ensures row in subset <==> row in d.rows && PassesAll(d.numeric, row, fs)
    {
      SelectMembership(d.numeric, d.rows, fs, row);
    }
    SelectIsSubsequence(d.numeric, d.rows, fs);
  }

  /** With no filters the subset is the whole table. */
  lemma {:induction false} SelectNoFilters(numeric: set<Column>, rows: seq<Row>)
    ensures Select(numeric, rows, []) == rows
  {
    if rows != [] {
      SelectNoFilters(numeric, rows[1..]);
      assert rows == [rows[0]] + rows[1..];
    }
  }

  /** One more filter narrows the subset by that filter's mask when its column is
      numeric, and leaves it unchanged otherwise. */
  lemma {:induction false} SelectAddFilter(numeric: set<Column>, rows: seq<Row>, fs: seq<Filter>, f: Filter)
    ensures Select(numeric, rows, fs + [f])
         == if f.column in numeric then Keep(Select(numeric, rows, fs), f) else Select(numeric, rows, fs)
  {
    if rows != [] {
      SelectAddFilter(numeric, rows[1..], fs, f);
      var row, rest := rows[0], Select(numeric, rows[1..], fs);
      assert PassesAll(numeric, row, fs + [f]) <==> PassesAll(numeric, row, fs) && Passes(numeric, row, f) by {
        assert forall k :: 0 <= k < |fs| ==> (fs + [f])[k] == fs[k];
        assert (fs + [f])[|fs|] == f;
      }
      assert Select(numeric, rows, fs + [f])
          == (if PassesAll(numeric, row, fs + [f]) then [row] else []) + Select(numeric, rows[1..], fs + [f]);
      if PassesAll(numeric, row, fs) {
        var s := [row] + rest;
        assert Select(numeric, rows, fs) == s;
        assert s[0] == row && s[1..] == rest;
        assert Keep(s, f) == (if InRange(row, f) then [row] else []) + Keep(rest, f);
      } else {
        assert Select(numeric, rows, fs) == rest;
      }
    }
  }

  /** Conjunction law: a row is in the subset iff it is a row of the table and
      passes every filter. */
  lemma {:induction false} SelectMembership(numeric: set<Column>, rows: seq<Row>, fs: seq<Filter>, row: Row)
    ensures row in Select(numeric, rows, fs) <==> row in rows && PassesAll(numeric, row, fs)
  {
    if rows != [] {
      SelectMembership(numeric, rows[1..], fs, row);
      assert rows == [rows[0]] + rows[1..];
    }
  }

  /** The subset keeps rows in table order and invents none. */
  lemma {:induction false} SelectIsSubsequence(numeric: set<Column>, rows: seq<Row>, fs: seq<Filter>)
    ensures Subsequence(Select(numeric, rows, fs), rows)
  {
    if rows != [] {
      SelectIsSubsequence(numeric, rows[1..], fs);
      var rest := Select(numeric, rows[1..], fs);
      assert rows == [rows[0]] + rows[1..];
      if PassesAll(numeric, rows[0], fs) {
        SubsequenceCons(rows[0], rest, rows[1..]);
      } else {
        assert Select(numeric, rows, fs) == rest;
        SubsequenceSkip(rows[0], rest, rows[1..]);
      }
    }
  }

  /** A subsequence is never longer than the sequence it is taken from. */
  lemma {:induction false} SubsequenceLength<T>(a: seq<T>, b: seq<T>)
    requires Subsequence(a, b)
    ensures |a| <= |b|
    decreases |b|
  {
    if a != [] {
      if a[0] == b[0] && Subsequence(a[1..], b[1..]) {
        SubsequenceLength(a[1..], b[1..]);
      } else {
        SubsequenceLength(a, b[1..]);
      }
    }
  }

  /** Keeping the same first element on both sides preserves the subsequence relation. */
  lemma SubsequenceCons<T>(x: T, a: seq<T>, b: seq<T>)
    requires Subsequence(a, b)
    ensures Subsequence([x] + a, [x] + b)
  {
    assert ([x] + a)[1..] == a && ([x] + b)[1..] == b;
  }

  /** Adding an element in front of the larger sequence preserves the subsequence relation. */
  lemma SubsequenceSkip<T>(x: T, a: seq<T>, b: seq<T>)
    requires Subsequence(a, b)
    ensures Subsequence(a, [x] + b)
  {
    assert ([x] + b)[1..] == b;
  }

  /** If every row passing gs also passes fs, the subset of gs is an
      order-preserving subsequence of the subset of fs. */
  lemma {:induction false} SelectMonotone(numeric: set<Column>, rows: seq<Row>, fs: seq<Filter>, gs: seq<Filter>)
    requires forall row :: row in rows && PassesAll(numeric, row, gs) ==> PassesAll(numeric, row, fs)
    ensures Subsequence(Select(numeric, rows, gs), Select(numeric, rows, fs))
  {
    if rows != [] {
      var row := rows[0];
      assert forall r :: r in rows[1..] ==> r in rows;
      SelectMonotone(numeric, rows[1..], fs, gs);
      var a := Select(numeric, rows[1..], gs);
      var b := Select(numeric, rows[1..], fs);
      if PassesAll(numeric, row, gs) {
        assert row in rows;
        SubsequenceCons(row, a, b);
      } else if PassesAll(numeric, row, fs) {
        assert Select(numeric, rows, gs) == a;
        SubsequenceSkip(row, a, b);
      } else {
        assert Select(numeric, rows, gs) == a && Select(numeric, rows, fs) == b;
      }
    }
  }

  /** Adding a filter to a rule never enlarges its subset: the new subset is a
      subsequence of the old one, hence no longer. */
  lemma AddFilterNarrows(numeric: set<Column>, rows: seq<Row>, fs: seq<Filter>, f: Filter)
    ensures Subsequence(Select(numeric, rows, fs + [f]), Select(numeric, rows, fs))
    ensures |Select(numeric, rows, fs + [f])| <= |Select(numeric, rows, fs)|
  {
    forall row | row in rows && PassesAll(numeric, row, fs + [f])
      ensures PassesAll(numeric, row, fs)
    {
      assert forall k :: 0 <= k < |fs| ==> (fs + [f])[k] == fs[k];
    }
    SelectMonotone(numeric, rows, fs, fs + [f]);
    SubsequenceLength(Select(numeric, rows, fs + [f]), Select(numeric, rows, fs));
  }

  /** A numeric filter with min > max matches no row, so the whole subset is empty. */
  lemma EmptyRangeEmptiesSubset(numeric: set<Column>, rows: seq<Row>, fs: seq<Filter>, k: nat)
    requires k < |fs| && fs[k].column in numeric && fs[k].lo > fs[k].hi
    ensures Select(numeric, rows, fs) == []
  {
    var s := Select(numeric, rows, fs);
    if s != [] {
      SelectMembership(numeric, rows, fs, s[0]);
      assert false;
    }
  }

  /** Two filter lists every row passes alike give the same subset. */
  lemma {:induction false} SelectSameFilters(numeric: set<Column>, rows: seq<Row>, fs: seq<Filter>, gs: seq<Filter>)
    requires forall row :: row in rows ==> (PassesAll(numeric, row, fs) <==> PassesAll(numeric, row, gs))
    ensures Select(numeric, rows, fs) == Select(numeric, rows, gs)
  {
    if rows != [] {
      assert forall r :: r in rows[1..] ==> r in rows;
      SelectSameFilters(numeric, rows[1..], fs, gs);
    }
  }

  /** A filter on a non-numeric column has no effect, wherever it stands in the rule. */
  lemma NonNumericFilterIgnored(numeric: set<Column>, rows: seq<Row>, before: seq<Filter>, f: Filter, after: seq<Filter>)
    requires f.column !in numeric
    ensures Select(numeric, rows, before + [f] + after) == Select(numeric, rows, before + after)
  {
    var fs, gs := before + [f] + after, before + after;
    forall row | row in rows
      ensures PassesAll(numeric, row, fs) <==> PassesAll(numeric, row, gs)
    {
      assert forall k :: 0 <= k < |before| ==> fs[k] == gs[k];
      assert forall k :: |before| <= k < |gs| ==> fs[k + 1] == gs[k];
      if PassesAll(numeric, row, gs) {
        forall k | 0 <= k < |fs| ensures Passes(numeric, row, fs[k]) {
          if k > |before| { assert fs[k] == gs[k - 1]; }
        }
      }
    }
    SelectSameFilters(numeric, rows, fs, gs);
  }

  /** The order of a rule's filters does not matter: two lists holding the same
      filters give the same subset. */
  lemma FilterOrderIrrelevant(numeric: set<Column>, rows: seq<Row>, fs: seq<Filter>, gs: seq<Filter>)
    requires forall f :: f in fs <==> f in gs
    ensures Select(numeric, rows, fs) == Select(numeric, rows, gs)
  {
    forall row | row in rows
      ensures PassesAll(numeric, row, fs) <==> PassesAll(numeric, row, gs)
    {
      if PassesAll(numeric, row, fs) {
        forall k | 0 <= k < |gs| ensures Passes(numeric, row, gs[k]) {
          assert gs[k] in fs;
        }
      }
      if PassesAll(numeric, row, gs) {
        forall k | 0 <= k < |fs| ensures Passes(numeric, row, fs[k]) {
          assert fs[k] in gs;
        }
      }
    }
    SelectSameFilters(numeric, rows, fs, gs);
  }

  /** Both bounds are inclusive: a single numeric filter keeps a row exactly when
      lo <= value <= hi, so value == lo and value == hi are kept and lo - 1, hi + 1 are not. */
  lemma BoundsInclusive(numeric: set<Column>, row: Row, f: Filter)
    requires f.column in numeric && f.column in row
    ensures Select(numeric, [row], [f]) == if f.lo <= row[f.column] <= f.hi then [row] else []
    ensures row[f.column] == f.lo <= f.hi ==> Select(numeric, [row], [f]) == [row]
    ensures f.lo <= f.hi == row[f.column] ==> Select(numeric, [row], [f]) == [row]
    ensures row[f.column] == f.lo - 1 || row[f.column] == f.hi + 1 ==> Select(numeric, [row], [f]) == []
  {
    assert [row][1..] == [] && [f][0] == f;
    assert PassesAll(numeric, row, [f]) <==> Passes(numeric, row, f);
  }
}
