/** `upsert_90d_into_history` (backfill_90d.py): merge a batch of dated rate
    rows (the 90-day feed) into the history cell by cell. */
module BatchMerge {
  import opened Tables
  import opened Sorting
  import opened Frames

  /** The batch rows on dates the history lacks,
      `last90_idx.loc[last90_idx.index.difference(hist_idx.index)]`. */
  function NewDateRows(batch: seq<Row>, dates: set<Date>): (r: seq<Row>)
    ensures forall x :: x in r <==> x in batch && x.date !in dates
    ensures UniqueDates(batch) ==> UniqueDates(r)
  {
    if batch == [] then []
    else
      var rest := NewDateRows(batch[1..], dates);
      assert batch == [batch[0]] + batch[1..];
      if batch[0].date in dates then rest
      else
        assert UniqueDates(batch) ==> forall x :: x in rest ==> x.date != batch[0].date by {
          if UniqueDates(batch) {
            forall x | x in rest ensures x.date != batch[0].date {
              var k :| 0 <= k < |batch[1..]| && batch[1..][k] == x;
              assert batch[k + 1] == x;
            }
          }
        }
        [batch[0]] + rest
  }

  /** The history after `hist_idx.update(last90_idx)` and, when the batch has
      dates the history lacks, the concatenation of those batch rows. */
  function Joined(h: Table, b: Table): Table {
    var updated := Table(h.columns, UpdateRows(h.rows, b));
    var newRows := NewDateRows(b.rows, DateSet(h.rows));
    if |newRows| > 0 then Concat(updated, Table(b.columns, newRows)) else updated
  }

  /** What `upsert_90d_into_history(h, b)` returns. A history with no rows is
      replaced by the batch, columns included. */
  function MergeBatch(h: Table, b: Table): (r: Table)
    requires h.Valid() && b.Valid() && UniqueDates(b.rows)
    ensures r.Valid()
    ensures |h.rows| == 0 ==> r == b
  {
    if |h.rows| == 0 then b
    else
      var j := Joined(h, b);
      JoinedValid(h, b);
      SortedValid(j);
      Table(j.columns, SortByDate(j.rows))
  }

  /** `upsert_90d_into_history`: a fresh frame indexed by date is updated in
      place by the batch, the batch rows on new dates are appended, and the
      result is sorted by date. */
  method UpsertBatch(hist: Table, batch: Table) returns (r: Table)
    requires hist.Valid() && batch.Valid() && UniqueDates(batch.rows)
    ensures r == MergeBatch(hist, batch)
  {
    if |hist.rows| == 0 {
      return batch;
    }
    var frame := new Frame(hist);
    frame.Update(batch);
    var t := frame.Value();
    assert t == Table(hist.columns, UpdateRows(hist.rows, batch));
    UpdateRowsKeepsShape(hist.rows, batch);
    var missing := NewDateRows(batch.rows, DateSet(t.rows));
    if |missing| > 0 {
      t := Concat(t, Table(batch.columns, missing));
    }
    assert t == Joined(hist, batch);
    r := Table(t.columns, SortByDate(t.rows));
  }

  lemma UpdateRowsKeepsShape(rows: seq<Row>, b: Table)
    ensures forall k :: 0 <= k < |rows| ==>
      UpdateRows(rows, b)[k].date == rows[k].date && UpdateRows(rows, b)[k].cells.Keys == rows[k].cells.Keys
    ensures DateSet(UpdateRows(rows, b)) == DateSet(rows)
    ensures UniqueDates(rows) ==> UniqueDates(UpdateRows(rows, b))
  {
    var u := UpdateRows(rows, b);
    forall d | d in DateSet(rows) ensures d in DateSet(u) {
      var k :| 0 <= k < |rows| && rows[k].date == d;
      assert u[k] in u;
    }
    forall d | d in DateSet(u) ensures d in DateSet(rows) {
      var k :| 0 <= k < |u| && u[k].date == d;
      assert rows[k] in rows;
    }
  }

  lemma JoinedValid(h: Table, b: Table)
    requires h.Valid() && b.Valid()
    ensures Joined(h, b).Valid()
  {
    var updated := Table(h.columns, UpdateRows(h.rows, b));
    UpdateRowsKeepsShape(h.rows, b);
    forall x | x in updated.rows ensures x.cells.Keys == Elems(h.columns) {
      var k :| 0 <= k < |updated.rows| && updated.rows[k] == x;
      assert h.rows[k] in h.rows;
    }
    var newRows := NewDateRows(b.rows, DateSet(h.rows));
    assert Table(b.columns, newRows).Valid();
  }

  lemma RowAtUpdateRows(rows: seq<Row>, b: Table, d: Date)
    requires UniqueDates(rows) && d in DateSet(rows)
    ensures d in DateSet(UpdateRows(rows, b))
    ensures RowAt(UpdateRows(rows, b), d) == UpdatedRow(RowAt(rows, d), b)
  {
    var x := RowAt(rows, d);
    var k :| 0 <= k < |rows| && rows[k] == x;
    var u := UpdateRows(rows, b);
    UpdateRowsKeepsShape(rows, b);
    assert u[k] in u;
    RowAtUnique(u, u[k]);
  }

  /** The rows before sorting have unique dates: the history's and the new batch dates. */
  lemma {:induction false} JoinedDates(h: Table, b: Table)
    requires UniqueDates(h.rows) && UniqueDates(b.rows)
    ensures UniqueDates(Joined(h, b).rows)
    ensures DateSet(Joined(h, b).rows) ==
      if |NewDateRows(b.rows, DateSet(h.rows))| > 0 then DateSet(h.rows) + DateSet(b.rows) else DateSet(h.rows)
    ensures |NewDateRows(b.rows, DateSet(h.rows))| == 0 ==> DateSet(b.rows) <= DateSet(h.rows)
  {
    var ur := UpdateRows(h.rows, b);
    var newRows := NewDateRows(b.rows, DateSet(h.rows));
    UpdateRowsKeepsShape(h.rows, b);
    assert DateSet(newRows) == DateSet(b.rows) - DateSet(h.rows) by {
      forall d | d in DateSet(b.rows) - DateSet(h.rows) ensures d in DateSet(newRows) {
        var x :| x in b.rows && x.date == d;
        assert x in newRows;
      }
    }
    if |newRows| > 0 {
      var u := Concat(Table(h.columns, ur), Table(b.columns, newRows)).columns;
      UniquePadAll(ur, u);
      UniquePadAll(newRows, u);
      DateSetPadAll(ur, u);
      DateSetPadAll(newRows, u);
      UniqueAppend(PadAll(ur, u), PadAll(newRows, u));
      DateSetAppend(PadAll(ur, u), PadAll(newRows, u));
    } else {
      assert newRows == [];
    }
  }

  /** The row of the joined table at a history date is the updated history
      row, and at a new date it is the batch row, each aligned to the joined
      columns. */
  lemma {:induction false} JoinedRowAt(h: Table, b: Table, d: Date)
    requires h.Valid() && UniqueDates(h.rows) && UniqueDates(b.rows)
    requires d in DateSet(h.rows) || d in DateSet(b.rows)
    ensures d in DateSet(Joined(h, b).rows)
    ensures RowAt(Joined(h, b).rows, d) ==
      if d in DateSet(h.rows) then Pad(UpdatedRow(RowAt(h.rows, d), b), Joined(h, b).columns)
      else Pad(RowAt(b.rows, d), Joined(h, b).columns)
  {
    JoinedDates(h, b);
    var ur := UpdateRows(h.rows, b);
    var newRows := NewDateRows(b.rows, DateSet(h.rows));
    UpdateRowsKeepsShape(h.rows, b);
    if |newRows| > 0 {
      var u := Joined(h, b).columns;
      UniquePadAll(ur, u);
      DateSetPadAll(ur, u);
      RowAtAppend(PadAll(ur, u), PadAll(newRows, u), d);
      if d in DateSet(h.rows) {
        RowAtUpdateRows(h.rows, b, d);
        RowAtPadAll(ur, u, d);
      } else {
        var x := RowAt(b.rows, d);
        assert x in newRows;
        RowAtUnique(newRows, x);
        RowAtPadAll(newRows, u, d);
      }
    } else {
      RowAtUpdateRows(h.rows, b, d);
      var x := RowAt(h.rows, d);
      assert x in h.rows;
      assert Pad(UpdatedRow(x, b), h.columns) == UpdatedRow(x, b);
    }
  }

  /** The merged table's row at a date, before and after sorting, is the joined table's. */
  lemma MergedRowAt(h: Table, b: Table, d: Date)
    requires h.Valid() && b.Valid() && UniqueDates(h.rows) && UniqueDates(b.rows) && |h.rows| > 0
    requires d in DateSet(h.rows) || d in DateSet(b.rows)
    ensures d in DateSet(MergeBatch(h, b).rows)
    ensures MergeBatch(h, b).columns == Joined(h, b).columns
    ensures RowAt(MergeBatch(h, b).rows, d) == RowAt(Joined(h, b).rows, d)
  {
    JoinedDates(h, b);
    JoinedRowAt(h, b, d);
    SortByDateRowAt(Joined(h, b).rows, d);
  }

  /** On a date the history has, a history column takes the batch's value when
      the batch has that date and column and its cell is present, and keeps
      its old value otherwise: a missing batch cell never overwrites. A column
      the merge added is missing there, even where the batch had a value. */
  lemma {:induction false} MergeBatchHistoryDates(h: Table, b: Table, d: Date)
    requires h.Valid() && b.Valid() && UniqueDates(h.rows) && UniqueDates(b.rows) && |h.rows| > 0
    requires d in DateSet(h.rows)
    ensures d in DateSet(MergeBatch(h, b).rows)
    ensures forall c :: c in h.columns ==>
      RowAt(MergeBatch(h, b).rows, d).cells[c] ==
        if d in DateSet(b.rows) && c in b.columns && RowAt(b.rows, d).cells[c].Some?
        then RowAt(b.rows, d).cells[c]
        else RowAt(h.rows, d).cells[c]
    ensures forall c :: c in MergeBatch(h, b).columns && c !in h.columns ==>
      RowAt(MergeBatch(h, b).rows, d).cells[c] == None
  {
    MergedRowAt(h, b, d);
    JoinedRowAt(h, b, d);
    var x := RowAt(h.rows, d);
    assert x in h.rows;
    if d in DateSet(b.rows) {
      var y := RowAt(b.rows, d);
      assert y in b.rows;
    }
  }

  /** On a date only the batch has, the row carries the batch's cells, and
      is missing on the history's columns the batch lacks. */
  lemma {:induction false} MergeBatchNewDates(h: Table, b: Table, d: Date)
    requires h.Valid() && b.Valid() && UniqueDates(h.rows) && UniqueDates(b.rows) && |h.rows| > 0
    requires d in DateSet(b.rows) && d !in DateSet(h.rows)
    ensures d in DateSet(MergeBatch(h, b).rows)
    ensures forall c :: c in b.columns ==> RowAt(MergeBatch(h, b).rows, d).cells[c] == RowAt(b.rows, d).cells[c]
    ensures forall c :: c in MergeBatch(h, b).columns && c !in b.columns ==>
      RowAt(MergeBatch(h, b).rows, d).cells[c] == None
  {
    MergedRowAt(h, b, d);
    JoinedRowAt(h, b, d);
    var y := RowAt(b.rows, d);
    assert y in b.rows;
    var x :| x in b.rows && x.date == d;
    assert x in NewDateRows(b.rows, DateSet(h.rows));
  }

  /** The merged history has one row per date of the history or the batch,
      in strictly ascending order; it gains the batch's new columns exactly
      when the batch has a date the history lacks. */
  lemma {:induction false} MergeBatchShape(h: Table, b: Table)
    requires h.Valid() && b.Valid() && UniqueDates(h.rows) && UniqueDates(b.rows) && |h.rows| > 0
    ensures StrictlySorted(MergeBatch(h, b).rows)
    ensures DateSet(MergeBatch(h, b).rows) == DateSet(h.rows) + DateSet(b.rows)
    ensures MergeBatch(h, b).columns ==
      if DateSet(b.rows) <= DateSet(h.rows) then h.columns
      else h.columns + Minus(b.columns, h.columns)
  {
    JoinedDates(h, b);
    var j := Joined(h, b);
    SortByDateStrict(j.rows);
    SortByDateDates(j.rows);
    var newRows := NewDateRows(b.rows, DateSet(h.rows));
    if |newRows| > 0 {
      assert newRows[0] in newRows;
    }
  }

  /** `update` with the same frame twice is `update` once. */
  lemma UpdatedRowTwice(x: Row, b: Table)
    ensures UpdatedRow(UpdatedRow(x, b), b) == UpdatedRow(x, b)
  {
  }

  /** A batch row is already up to date with respect to its own batch. */
  lemma UpdatedBatchRow(x: Row, b: Table, cols: seq<Code>)
    requires b.Valid() && UniqueDates(b.rows) && x in b.rows
    ensures UpdatedRow(Pad(x, cols), b) == Pad(x, cols)
  {
    RowAtUnique(b.rows, x);
  }

  /** Merging a batch into a sorted table that has all of the batch's dates
      and already agrees with every present batch cell changes nothing. */
  lemma {:induction false} MergeBatchFixed(t: Table, b: Table)
    requires t.Valid() && b.Valid() && UniqueDates(b.rows) && |t.rows| > 0 && Sorted(t.rows)
    requires DateSet(b.rows) <= DateSet(t.rows)
    requires forall y :: y in t.rows ==> UpdatedRow(y, b) == y
    ensures MergeBatch(t, b) == t
  {
    assert UpdateRows(t.rows, b) == t.rows;
    assert forall x :: x in b.rows ==> x.date in DateSet(t.rows);
    NoNewDateRows(b.rows, DateSet(t.rows));
    assert Joined(t, b) == t;
    SortByDateOfSorted(t.rows);
  }

  /** A batch whose dates the history all has adds no rows. */
  lemma {:induction false} NoNewDateRows(batch: seq<Row>, dates: set<Date>)
    requires forall x :: x in batch ==> x.date in dates
    ensures NewDateRows(batch, dates) == []
  {
    if batch != [] {
      assert batch[0] in batch;
      NoNewDateRows(batch[1..], dates);
    }
  }

  /** Every row joined from the history and the batch is up to date with
      respect to the batch, provided the batch brings no column the history
      lacks. */
  lemma JoinedRowsAbsorbBatch(h: Table, b: Table)
    requires h.Valid() && b.Valid() && UniqueDates(b.rows)
    requires forall c :: c in b.columns ==> c in h.columns
    ensures forall y :: y in Joined(h, b).rows ==> UpdatedRow(y, b) == y
    ensures |Joined(h, b).rows| >= |h.rows|
  {
    var ur := UpdateRows(h.rows, b);
    var newRows := NewDateRows(b.rows, DateSet(h.rows));
    UpdatedRowsAbsorbBatch(h.rows, b);
    if |newRows| > 0 {
      UpdateRowsKeepsShape(h.rows, b);
      MinusEmpty(b.columns, h.columns);
      assert h.columns + [] == h.columns;
      PadAllOwnColumns(Table(h.columns, ur));
      PaddedAbsorbBatch(newRows, b, h.columns);
      assert Joined(h, b).rows == ur + PadAll(newRows, h.columns);
    }
  }

  /** Rows updated by a batch are up to date with respect to it. */
  lemma UpdatedRowsAbsorbBatch(rows: seq<Row>, b: Table)
    ensures forall y :: y in UpdateRows(rows, b) ==> UpdatedRow(y, b) == y
  {
    var ur := UpdateRows(rows, b);
    forall y | y in ur ensures UpdatedRow(y, b) == y {
      var k :| 0 <= k < |ur| && ur[k] == y;
      UpdatedRowTwice(rows[k], b);
    }
  }

  /** Batch rows aligned to any columns are up to date with respect to the batch. */
  lemma PaddedAbsorbBatch(rows: seq<Row>, b: Table, cols: seq<Code>)
    requires b.Valid() && UniqueDates(b.rows) && forall x :: x in rows ==> x in b.rows
    ensures forall y :: y in PadAll(rows, cols) ==> UpdatedRow(y, b) == y
  {
    var padded := PadAll(rows, cols);
    forall y | y in padded ensures UpdatedRow(y, b) == y {
      var k :| 0 <= k < |padded| && padded[k] == y;
      assert rows[k] in rows;
      UpdatedBatchRow(rows[k], b, cols);
    }
  }

  lemma MergedRowsAbsorbBatch(h: Table, b: Table)
    requires h.Valid() && b.Valid() && UniqueDates(b.rows) && |h.rows| > 0
    requires forall c :: c in b.columns ==> c in h.columns
    ensures forall y :: y in MergeBatch(h, b).rows ==> UpdatedRow(y, b) == y
    ensures |MergeBatch(h, b).rows| > 0
  {
    JoinedRowsAbsorbBatch(h, b);
    SortByDateMembers(Joined(h, b).rows);
  }

  /** Re-merging the same batch changes nothing when the batch brings no
      column the history lacks, or no date the history lacks (its new
      columns then never arrive). For an empty history the batch must itself
      be in date order. */
  lemma {:induction false} MergeBatchIdempotent(h: Table, b: Table)
    requires h.Valid() && b.Valid() && UniqueDates(h.rows) && UniqueDates(b.rows) && Sorted(b.rows)
    requires (forall c :: c in b.columns ==> c in h.columns) || DateSet(b.rows) <= DateSet(h.rows)
    ensures MergeBatch(MergeBatch(h, b), b) == MergeBatch(h, b)
  {
    var m := MergeBatch(h, b);
    if |h.rows| == 0 {
      if |b.rows| > 0 {
        forall y | y in b.rows ensures UpdatedRow(y, b) == y {
          UpdatedBatchRow(y, b, b.columns);
          assert Pad(y, b.columns) == y;
        }
        MergeBatchFixed(b, b);
      }
    } else if forall c :: c in b.columns ==> c in h.columns {
      MergeBatchShape(h, b);
      MergedRowsAbsorbBatch(h, b);
      MergeBatchFixed(m, b);
    } else {
      MergeBatchShape(h, b);
      UpdatedRowsOnlyAbsorbBatch(h, b);
      MergeBatchFixed(m, b);
    }
  }

  /** With no new dates, the merged rows are the updated history rows, which
      are up to date with respect to the batch. */
  lemma UpdatedRowsOnlyAbsorbBatch(h: Table, b: Table)
    requires h.Valid() && b.Valid() && UniqueDates(b.rows) && |h.rows| > 0
    requires DateSet(b.rows) <= DateSet(h.rows)
    ensures forall y :: y in MergeBatch(h, b).rows ==> UpdatedRow(y, b) == y
    ensures |MergeBatch(h, b).rows| > 0
  {
    var ur := UpdateRows(h.rows, b);
    assert forall x :: x in b.rows ==> x.date in DateSet(h.rows);
    NoNewDateRows(b.rows, DateSet(h.rows));
    assert Joined(h, b).rows == ur;
    UpdatedRowsAbsorbBatch(h.rows, b);
    SortByDateMembers(ur);
  }

  /** Re-merging a batch that brings a new currency but no new date: GBP on
      a day the USD history already has. */
  lemma MergeBatchNewCurrencyOldDate()
    ensures var h := Table(["USD"], [Row(1, map["USD" := Some(4.0)])]);
            var b := Table(["USD", "GBP"], [Row(1, map["USD" := Some(4.0), "GBP" := Some(5.0)])]);
            MergeBatch(MergeBatch(h, b), b) == MergeBatch(h, b)
  {
    var h := Table(["USD"], [Row(1, map["USD" := Some(4.0)])]);
    var b := Table(["USD", "GBP"], [Row(1, map["USD" := Some(4.0), "GBP" := Some(5.0)])]);
    assert b.rows[0] in b.rows && h.rows[0] in h.rows;
    assert DateSet(b.rows) == {1} == DateSet(h.rows);
    MergeBatchIdempotent(h, b);
  }

  /** The merge is not idempotent in general: when the batch has a date the
      history lacks, its new columns arrive, but are missing on the dates the
      history already had, even where the batch has a value there. Merging
      the same batch again fills those cells. */
  lemma {:induction false} MergeBatchNotIdempotentWhen(h: Table, b: Table, d: Date, c: Code)
    requires h.Valid() && b.Valid() && UniqueDates(h.rows) && UniqueDates(b.rows) && |h.rows| > 0
    requires !(DateSet(b.rows) <= DateSet(h.rows))
    requires d in DateSet(h.rows) && d in DateSet(b.rows)
    requires c in b.columns && c !in h.columns && RowAt(b.rows, d).cells[c].Some?
    ensures MergeBatch(MergeBatch(h, b), b) != MergeBatch(h, b)
  {
    var m := MergeBatch(h, b);
    assert m.Valid() && UniqueDates(m.rows) && |m.rows| > 0 && d in DateSet(m.rows) && c in m.columns by {
      MergeBatchShape(h, b);
      MergedRowsNonEmpty(h, b);
    }
    assert RowAt(m.rows, d).cells[c] == None by {
      MergeBatchHistoryDates(h, b, d);
    }
    MergeBatchHistoryDates(m, b, d);
  }

  lemma MergedRowsNonEmpty(h: Table, b: Table)
    requires h.Valid() && b.Valid() && UniqueDates(b.rows) && |h.rows| > 0
    ensures |MergeBatch(h, b).rows| > 0
  {
    UpdateRowsKeepsShape(h.rows, b);
  }

  /** A two-day batch bringing GBP into a one-day USD history. */
  lemma MergeBatchNotIdempotent()
    ensures var h := Table(["USD"], [Row(1, map["USD" := Some(4.0)])]);
            var b := Table(["USD", "GBP"], [Row(1, map["USD" := Some(4.0), "GBP" := Some(5.0)]),
                                            Row(2, map["USD" := Some(4.1), "GBP" := Some(5.1)])]);
            MergeBatch(MergeBatch(h, b), b) != MergeBatch(h, b)
  {
    var h := Table(["USD"], [Row(1, map["USD" := Some(4.0)])]);
    var b := Table(["USD", "GBP"], [Row(1, map["USD" := Some(4.0), "GBP" := Some(5.0)]),
                                    Row(2, map["USD" := Some(4.1), "GBP" := Some(5.1)])]);
    assert b.rows[0] in b.rows && b.rows[1] in b.rows && h.rows[0] in h.rows;
    assert RowAt(b.rows, 1) == b.rows[0];
    assert 2 in DateSet(b.rows) && 2 !in DateSet(h.rows);
    MergeBatchNotIdempotentWhen(h, b, 1, "GBP");
  }
}
