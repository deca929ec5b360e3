/** `upsert_daily_row` (main.py): merge the one-row table of today's rates into
    the history when, and only when, the history has no row for that date. */
module DailyMerge {
  import opened Tables
  import opened Sorting
  import opened Frames

  /** `today_row[history.columns]` raises a KeyError naming the history columns
      today's table lacks. */
  datatype MergeError = MissingColumns(columns: seq<Code>)

  /** The history with `cols` appended as columns missing on every existing row. */
  function Widen(h: Table, cols: seq<Code>): Table {
    Table(h.columns + cols, PadAll(h.rows, h.columns + cols))
  }

  /** What `upsert_daily_row(h, today)` returns. */
  function UpsertDaily(h: Table, today: Table): (r: Result<Table, MergeError>)
    requires h.Valid() && today.Valid()
    ensures |today.rows| == 0 ==> r == Ok(h)
    ensures |today.rows| > 0 && today.rows[0].date in DateSet(h.rows) ==> r == Ok(h)
    ensures r.Err? <==>
      |today.rows| > 0 && today.rows[0].date !in DateSet(h.rows) &&
      exists c :: c in h.columns && c !in today.columns
    ensures r.Err? ==> forall c :: c in r.error.columns <==> c in h.columns && c !in today.columns
  {
    if |today.rows| == 0 || today.rows[0].date in DateSet(h.rows) then Ok(h)
    else
      var lacking := Minus(h.columns + Minus(today.columns, h.columns), today.columns);
      if lacking != [] then
        assert lacking[0] in lacking;
        Err(MissingColumns(lacking))
      else Ok(Inserted(h, today))
  }

  /** `pd.concat([history, today_row[history.columns]]).sort_values("date")`
      once the history has been widened by today's new columns. */
  function Inserted(h: Table, today: Table): Table {
    var wide := Widen(h, Minus(today.columns, h.columns));
    Table(wide.columns, SortByDate(wide.rows + PadAll(today.rows, wide.columns)))
  }

  /** Filtering one more name of a duplicate-free list: it joins the result
      unless `other` has it, and it was not in the result before. */
  lemma MinusStep(src: seq<Code>, i: nat, other: seq<Code>)
    requires NoDup(src) && i < |src|
    ensures src[i] !in Minus(src[..i], other)
    ensures Minus(src[..i + 1], other) ==
      if src[i] in other then Minus(src[..i], other) else Minus(src[..i], other) + [src[i]]
  {
    assert src[..i + 1][..i] == src[..i];
    assert src[i] !in src[..i];
  }

  /** Widening by one more column is setting that column to missing on every row. */
  lemma WidenAddColumn(h: Table, added: seq<Code>, col: Code)
    requires h.Valid() && col !in h.columns && col !in added
    ensures Widen(h, added + [col]).columns == Widen(h, added).columns + [col]
    ensures forall k :: 0 <= k < |h.rows| ==>
      Widen(h, added + [col]).rows[k] == Row(h.rows[k].date, Widen(h, added).rows[k].cells[col := None])
  {
    assert h.columns + (added + [col]) == h.columns + added + [col];
    forall k | 0 <= k < |h.rows|
      ensures Widen(h, added + [col]).rows[k] == Row(h.rows[k].date, Widen(h, added).rows[k].cells[col := None])
    {
      assert h.rows[k] in h.rows;
    }
  }

  function Missing(n: nat): (cells: seq<Cell>)
    ensures |cells| == n && forall k :: 0 <= k < n ==> cells[k] == None
  {
    seq(n, k => None)
  }

  /** `upsert_daily_row`. It changes the caller's `history` frame: before the
      concatenation it adds every column of `today` that the history lacks
      (see `AddMissingColumns`), and it does so even when the concatenation
      then fails. */
  method UpsertDailyRow(history: Frame, today: Table) returns (r: Result<Table, MergeError>)
    requires history.Valid() && today.Valid()
    modifies history
    ensures r == UpsertDaily(old(history.Value()), today)
    ensures history.Value() ==
      if |today.rows| == 0 || today.rows[0].date in DateSet(old(history.rows)) then old(history.Value())
      else Widen(old(history.Value()), Minus(today.columns, old(history.columns)))
  {
    if |today.rows| == 0 {
      return Ok(history.Value());
    }
    var d := today.rows[0].date;
    if d in DateSet(history.rows) {
      return Ok(history.Value());
    }
    AddMissingColumns(history, today.columns);
    var lacking := Minus(history.columns, today.columns);
    if lacking != [] {
      return Err(MissingColumns(lacking));
    }
    var wide := history.Value();
    r := Ok(Table(wide.columns, SortByDate(wide.rows + PadAll(today.rows, wide.columns))));
  }

  /** The loop of `upsert_daily_row` that gives the frame, one by one, each
      column of `cols` it lacks, missing on every existing row. */
  method AddMissingColumns(history: Frame, cols: seq<Code>)
    requires history.Valid() && NoDup(cols)
    modifies history
    ensures history.Valid()
    ensures history.Value() == Widen(old(history.Value()), Minus(cols, old(history.columns)))
  {
    ghost var h := history.Value();
    PadAllOwnColumns(h);
    assert h.columns + [] == h.columns;
    var i := 0;
    while i < |cols|
      invariant 0 <= i <= |cols|
      invariant history.Valid()
      invariant history.Value() == Widen(h, Minus(cols[..i], h.columns))
    {
      var col := cols[i];
      ghost var added := Minus(cols[..i], h.columns);
      MinusStep(cols, i, h.columns);
      if col !in history.columns {
        history.SetColumn(col, Missing(|history.rows|));
        WidenAddColumn(h, added, col);
        assert history.rows == Widen(h, added + [col]).rows;
      }
      i := i + 1;
    }
    assert cols[..i] == cols;
  }

  /** `y` is row `x` widened by `added`: same date, every cell of `x` as it
      was, and missing on each added column. */
  predicate Widened(y: Row, x: Row, added: seq<Code>) {
    && y.date == x.date
    && (forall c :: c in x.cells ==> c in y.cells && y.cells[c] == x.cells[c])
    && (forall c :: c in added ==> c in y.cells && y.cells[c] == None)
  }

  /** When today's date is new and today's table has every history column,
      the result has the history's columns followed by the ones only today
      has, one row more per row of today, and is in date order. */
  lemma {:induction false} UpsertDailyInsertShape(h: Table, today: Table)
    requires h.Valid() && today.Valid()
    requires |today.rows| > 0 && today.rows[0].date !in DateSet(h.rows)
    requires forall c :: c in h.columns ==> c in today.columns
    ensures UpsertDaily(h, today).Ok?
    ensures UpsertDaily(h, today).value.Valid()
    ensures UpsertDaily(h, today).value.columns == h.columns + Minus(today.columns, h.columns)
    ensures |UpsertDaily(h, today).value.rows| == |h.rows| + |today.rows|
    ensures Sorted(UpsertDaily(h, today).value.rows)
  {
    NoLackingColumn(h, today);
    assert UpsertDaily(h, today) == Ok(Inserted(h, today));
    InsertedShape(h, today);
  }

  lemma InsertedShape(h: Table, today: Table)
    requires h.Valid() && today.Valid()
    ensures Inserted(h, today).Valid()
    ensures Inserted(h, today).columns == h.columns + Minus(today.columns, h.columns)
    ensures |Inserted(h, today).rows| == |h.rows| + |today.rows|
    ensures Sorted(Inserted(h, today).rows)
  {
    var u := h.columns + Minus(today.columns, h.columns);
    var joined := PadAll(h.rows, u) + PadAll(today.rows, u);
    assert Inserted(h, today) == Table(u, SortByDate(joined));
    NoDupUnion(h.columns, today.columns);
    forall x | x in joined ensures x.cells.Keys == Elems(u) {
      var k :| 0 <= k < |joined| && joined[k] == x;
    }
    SortByDateSorted(joined);
    SortedValid(Table(u, joined));
  }

  lemma NoLackingColumn(h: Table, today: Table)
    requires forall c :: c in h.columns ==> c in today.columns
    ensures Minus(h.columns + Minus(today.columns, h.columns), today.columns) == []
    ensures Elems(h.columns + Minus(today.columns, h.columns)) == Elems(today.columns)
  {
    var u := h.columns + Minus(today.columns, h.columns);
    MinusEmpty(u, today.columns);
  }

  /** When today's rows are inserted, every earlier row survives with all
      its cells and missing values on the columns only today has, and today's
      rows are carried over as they are. */
  lemma {:induction false} UpsertDailyInsertRows(h: Table, today: Table)
    requires h.Valid() && today.Valid()
    requires |today.rows| > 0 && today.rows[0].date !in DateSet(h.rows)
    requires forall c :: c in h.columns ==> c in today.columns
    ensures UpsertDaily(h, today).Ok?
    ensures forall z :: z in today.rows ==> z in UpsertDaily(h, today).value.rows
    ensures forall x :: x in h.rows ==> exists y ::
      y in UpsertDaily(h, today).value.rows && Widened(y, x, Minus(today.columns, h.columns))
  {
    NoLackingColumn(h, today);
    assert UpsertDaily(h, today).value == Inserted(h, today);
    InsertedKeepsToday(h, today);
    InsertedKeepsHistory(h, today);
  }

  lemma InsertedKeepsToday(h: Table, today: Table)
    requires today.Valid()
    requires Elems(h.columns + Minus(today.columns, h.columns)) == Elems(today.columns)
    ensures forall z :: z in today.rows ==> z in Inserted(h, today).rows
  {
    var u := h.columns + Minus(today.columns, h.columns);
    var joined := PadAll(h.rows, u) + PadAll(today.rows, u);
    assert Inserted(h, today).rows == SortByDate(joined);
    SortByDateMembers(joined);
    forall z | z in today.rows ensures z in Inserted(h, today).rows {
      var k :| 0 <= k < |today.rows| && today.rows[k] == z;
      assert z.cells.Keys == Elems(u);
      PadOwnColumns(z, u);
      assert joined[|h.rows| + k] == z;
      assert z in joined;
    }
  }

  lemma InsertedKeepsHistory(h: Table, today: Table)
    requires h.Valid()
    ensures forall x :: x in h.rows ==> exists y ::
      y in Inserted(h, today).rows && Widened(y, x, Minus(today.columns, h.columns))
  {
    var u := h.columns + Minus(today.columns, h.columns);
    var joined := PadAll(h.rows, u) + PadAll(today.rows, u);
    assert Inserted(h, today).rows == SortByDate(joined);
    SortByDateMembers(joined);
    forall x | x in h.rows ensures exists y :: y in joined && Widened(y, x, Minus(today.columns, h.columns)) {
      var k :| 0 <= k < |h.rows| && h.rows[k] == x;
      var y := Pad(x, u);
      assert joined[k] == y;
      assert Widened(y, x, Minus(today.columns, h.columns));
    }
  }

  /** The daily merge keeps the history in strictly ascending date order with
      one row per date, and adds exactly today's date when it inserts. */
  lemma {:induction false} UpsertDailyDates(h: Table, today: Table)
    requires h.Valid() && today.Valid() && |today.rows| <= 1
    requires StrictlySorted(h.rows)
    requires UpsertDaily(h, today).Ok?
    ensures StrictlySorted(UpsertDaily(h, today).value.rows)
    ensures DateSet(UpsertDaily(h, today).value.rows) == DateSet(h.rows) + DateSet(today.rows)
  {
    if |today.rows| == 1 && today.rows[0].date !in DateSet(h.rows) {
      var u := h.columns + Minus(today.columns, h.columns);
      var a := PadAll(h.rows, u);
      var b := PadAll(today.rows, u);
      UniquePadAll(h.rows, u);
      DateSetPadAll(h.rows, u);
      DateSetPadAll(today.rows, u);
      assert DateSet(today.rows) == {today.rows[0].date};
      UniqueAppend(a, b);
      SortByDateStrict(a + b);
      SortByDateDates(a + b);
      DateSetAppend(a, b);
    } else if |today.rows| == 1 {
      assert DateSet(today.rows) == {today.rows[0].date};
    }
  }
}
