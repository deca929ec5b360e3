/** `compute_pln_rates` (the same code in main.py and backfill_90d.py): rates
    quoted as units of a currency per euro become the price of one unit of each
    target currency in złoty. The euro's price is the PLN rate itself; any other
    target's is the PLN rate divided by that currency's rate. */
module CrossRates {
  import opened Tables
  import opened Sorting
  import opened Frames

  /** The `ValueError` raised when the rates have no PLN column. */
  datatype DeriveError = MissingPln

  /** A derived column name without its `_PLN` suffix. */
  function Base(n: Code): Code {
    if |n| >= 4 then n[..|n| - 4] else n
  }

  /** The output column of target `t`, `f"{t}_PLN"`; `Base` recovers `t`. */
  function OutName(t: Code): (n: Code)
    ensures Base(n) == t
  {
    t + "_PLN"
  }

  /** The cell of `x` in column `c`, missing when `x` has no such column. */
  function Lookup(x: Row, c: Code): Cell {
    if c in x.cells then x.cells[c] else None
  }

  /** The quotient of two cells, missing when either is. */
  function Div(p: Cell, q: Cell): (r: Cell)
    requires q != Some(0.0)
    ensures r.Some? <==> p.Some? && q.Some?
    ensures r.Some? ==> r.value * q.value == p.value
  {
    if p.Some? && q.Some? then Some(p.value / q.value) else None
  }

  /** The price in złoty of one unit of `t` on the date of `x`. */
  function DerivedCell(x: Row, t: Code): Cell
    requires t != "EUR" ==> Lookup(x, t) != Some(0.0)
  {
    if t == "EUR" then Lookup(x, "PLN") else Div(Lookup(x, "PLN"), Lookup(x, t))
  }

  /** No rate of `rates` that a target in `w` other than the euro is divided
      by is zero (pandas would give an infinite price, which a cell cannot hold). */
  predicate NonZeroIn(rates: seq<Row>, w: seq<Code>) {
    forall x, t :: x in rates && t in w && t != "EUR" ==> Lookup(x, t) != Some(0.0)
  }

  /** The targets other than the euro that the rates have a column for, in the order given. */
  function Quoted(cols: seq<Code>, targets: seq<Code>): (r: seq<Code>)
    ensures forall t :: t in r <==> t in targets && t != "EUR" && t in cols
  {
    if targets == [] then []
    else
      var last := targets[|targets| - 1];
      assert targets == targets[..|targets| - 1] + [last];
      Quoted(cols, targets[..|targets| - 1]) + if last != "EUR" && last in cols then [last] else []
  }

  /** The targets whose output column is assigned, in the order of assignment:
      the euro first when it is a target, then the quoted ones. */
  function Written(cols: seq<Code>, targets: seq<Code>): (r: seq<Code>)
    ensures forall t :: t in r <==> t in targets && (t == "EUR" || t in cols)
  {
    (if "EUR" in targets then ["EUR"] else []) + Quoted(cols, targets)
  }

  function OutNames(w: seq<Code>): (r: seq<Code>)
    ensures |r| == |w| && forall k :: 0 <= k < |w| ==> r[k] == OutName(w[k])
    ensures forall n :: n in r <==> exists t :: t in w && n == OutName(t)
  {
    var r := seq(|w|, k requires 0 <= k < |w| => OutName(w[k]));
    assert forall k :: 0 <= k < |w| ==> r[k] == OutName(w[k]) && w[k] in w;
    r
  }

  /** The distinct names of `s` in order of first appearance: the column order
      of a frame to which the names of `s` are assigned one after another. */
  function Dedup(s: seq<Code>): (r: seq<Code>)
    ensures NoDup(r) && forall n :: n in r <==> n in s
  {
    if s == [] then []
    else
      var last := s[|s| - 1];
      assert s == s[..|s| - 1] + [last];
      var p := Dedup(s[..|s| - 1]);
      if last in p then p else p + [last]
  }

  /** The position of the first occurrence of `n` in `s`. */
  function FirstIndex(s: seq<Code>, n: Code): (i: nat)
    requires n in s
    ensures i < |s| && s[i] == n && n !in s[..i]
  {
    if s[0] == n then 0
    else
      assert s == [s[0]] + s[1..];
      var k := FirstIndex(s[1..], n);
      assert s[..k + 1] == [s[0]] + s[1..][..k];
      k + 1
  }

  /** Only one position holds the first occurrence of a name. */
  lemma FirstIndexUnique(s: seq<Code>, n: Code, i: nat)
    requires i < |s| && s[i] == n && n !in s[..i]
    ensures FirstIndex(s, n) == i
  {
    var f := FirstIndex(s, n);
    assert forall k :: 0 <= k < i ==> s[..i][k] == s[k];
    assert forall k :: 0 <= k < f ==> s[..f][k] == s[k];
  }

  /** Appending a name does not move the first occurrence of an earlier one. */
  lemma FirstIndexAppend(s: seq<Code>, x: Code, n: Code)
    requires n in s
    ensures FirstIndex(s + [x], n) == FirstIndex(s, n)
  {
    var i := FirstIndex(s, n);
    assert (s + [x])[..i] == s[..i];
    FirstIndexUnique(s + [x], n, i);
  }

  /** `Dedup` lists the names in the order of their first appearance; with
      its contract, this fixes its result. */
  lemma {:induction false} DedupOrder(s: seq<Code>)
    ensures forall i, j :: 0 <= i < j < |Dedup(s)| ==>
      FirstIndex(s, Dedup(s)[i]) < FirstIndex(s, Dedup(s)[j])
  {
    if s != [] {
      var init := s[..|s| - 1];
      var last := s[|s| - 1];
      assert s == init + [last];
      var p := Dedup(init);
      DedupOrder(init);
      forall n | n in init ensures FirstIndex(s, n) == FirstIndex(init, n) {
        FirstIndexAppend(init, last, n);
      }
      if last !in p {
        assert last !in init;
        assert s[..|s| - 1] == init;
        FirstIndexUnique(s, last, |s| - 1);
      }
    }
  }

  /** The output row for rates row `x`: its date and the price of every target in `w`. */
  function DerivedRow(x: Row, w: seq<Code>): (y: Row)
    requires forall t :: t in w && t != "EUR" ==> Lookup(x, t) != Some(0.0)
    ensures y.date == x.date && y.cells.Keys == Elems(OutNames(w))
  {
    Row(x.date, map n | n in OutNames(w) :: DerivedCell(x, Base(n)))
  }

  function DerivedRows(rows: seq<Row>, w: seq<Code>): (r: seq<Row>)
    requires NonZeroIn(rows, w)
    ensures |r| == |rows| && forall k :: 0 <= k < |rows| ==> r[k] == DerivedRow(rows[k], w)
  {
    seq(|rows|, k requires 0 <= k < |rows| => assert rows[k] in rows; DerivedRow(rows[k], w))
  }

  /** A row with at least one price present. */
  predicate HasPrice(y: Row) {
    exists n :: n in y.cells && y.cells[n].Some?
  }

  /** `dropna(how="all")` over the output columns: the rows with some price present. */
  function KeepPriced(rows: seq<Row>): (r: seq<Row>)
    ensures forall y :: y in r <==> y in rows && HasPrice(y)
    ensures UniqueDates(rows) ==> UniqueDates(r)
    ensures |r| <= |rows|
  {
    if rows == [] then []
    else
      var rest := KeepPriced(rows[1..]);
      assert rows == [rows[0]] + rows[1..];
      if !HasPrice(rows[0]) then rest
      else
        assert UniqueDates(rows) ==> forall y :: y in rest ==> y.date != rows[0].date by {
          if UniqueDates(rows) {
            forall y | y in rest ensures y.date != rows[0].date {
              var k :| 0 <= k < |rows[1..]| && rows[1..][k] == y;
              assert rows[k + 1] == y;
            }
          }
        }
        [rows[0]] + rest
  }

  /** What `compute_pln_rates(df, targets)` returns. */
  function PlnRates(df: Table, targets: seq<Code>): (r: Result<Table, DeriveError>)
    requires df.Valid() && NonZeroIn(df.rows, targets)
    ensures r.Err? <==> "PLN" !in df.columns
    ensures r.Ok? ==> r.value.Valid() && Sorted(r.value.rows) && |r.value.rows| <= |df.rows|
  {
    if "PLN" !in df.columns then Err(MissingPln)
    else
      var w := Written(df.columns, targets);
      var kept := KeepPriced(DerivedRows(df.rows, w));
      SortByDateSorted(kept);
      SortedValid(Table(Dedup(OutNames(w)), kept));
      Ok(Table(Dedup(OutNames(w)), SortByDate(kept)))
  }

  /** The rates column `c`, row by row. */
  function Column(rows: seq<Row>, c: Code): (r: seq<Cell>)
    requires forall x :: x in rows ==> c in x.cells
    ensures |r| == |rows| && forall k :: 0 <= k < |rows| ==> r[k] == rows[k].cells[c]
  {
    seq(|rows|, k requires 0 <= k < |rows| => assert rows[k] in rows; rows[k].cells[c])
  }

  /** `df["PLN"] / df[t]`, row by row. */
  function Quotients(rows: seq<Row>, t: Code): (r: seq<Cell>)
    requires forall x :: x in rows ==> "PLN" in x.cells && t in x.cells && x.cells[t] != Some(0.0)
    ensures |r| == |rows| && forall k :: 0 <= k < |rows| ==> r[k] == Div(rows[k].cells["PLN"], rows[k].cells[t])
    ensures t != "EUR" ==> forall k :: 0 <= k < |rows| ==> r[k] == DerivedCell(rows[k], t)
  {
    seq(|rows|, k requires 0 <= k < |rows| => assert rows[k] in rows; Div(rows[k].cells["PLN"], rows[k].cells[t]))
  }

  /** Every rates row can be divided through by a quoted target's column. */
  lemma QuotientsDefined(df: Table, targets: seq<Code>, t: Code)
    requires df.Valid() && NonZeroIn(df.rows, targets)
    requires "PLN" in df.columns && t in targets && t != "EUR" && t in df.columns
    ensures forall x :: x in df.rows ==> "PLN" in x.cells && t in x.cells && x.cells[t] != Some(0.0)
  {
    forall x | x in df.rows ensures "PLN" in x.cells && t in x.cells && x.cells[t] != Some(0.0) {
      assert Lookup(x, t) != Some(0.0);
    }
  }

  /** The rows of `pd.DataFrame({"date": df["date"]})`. */
  function DatesOnly(rows: seq<Row>): (r: seq<Row>)
    ensures |r| == |rows| && forall k :: 0 <= k < |rows| ==> r[k] == Row(rows[k].date, map[])
  {
    seq(|rows|, k requires 0 <= k < |rows| => Row(rows[k].date, map[]))
  }

  /** The targets written once the loop has seen the first `i` targets. */
  function WrittenUpTo(cols: seq<Code>, targets: seq<Code>, i: nat): seq<Code>
    requires i <= |targets|
  {
    (if "EUR" in targets then ["EUR"] else []) + Quoted(cols, targets[..i])
  }

  lemma WrittenStep(cols: seq<Code>, targets: seq<Code>, i: nat)
    requires i < |targets|
    ensures WrittenUpTo(cols, targets, i + 1) ==
      if targets[i] != "EUR" && targets[i] in cols then WrittenUpTo(cols, targets, i) + [targets[i]]
      else WrittenUpTo(cols, targets, i)
  {
    assert targets[..i + 1][..i] == targets[..i];
    assert targets[..i + 1] == targets[..i] + [targets[i]];
  }

  lemma WrittenAll(cols: seq<Code>, targets: seq<Code>)
    ensures WrittenUpTo(cols, targets, |targets|) == Written(cols, targets)
    ensures WrittenUpTo(cols, targets, 0) == if "EUR" in targets then ["EUR"] else []
  {
    assert targets[..|targets|] == targets;
    assert targets[..0] == [];
  }

  /** Assigning a name appends it to the columns unless the frame has it. */
  lemma DedupStep(s: seq<Code>, n: Code)
    ensures Dedup(s + [n]) == if n in Dedup(s) then Dedup(s) else Dedup(s) + [n]
  {
    assert (s + [n])[..|s|] == s;
  }

  lemma OutNamesStep(w: seq<Code>, t: Code)
    ensures OutNames(w + [t]) == OutNames(w) + [OutName(t)]
  {
  }

  /** Assigning one more target's column adds its price to the row. */
  lemma DerivedRowStep(x: Row, w: seq<Code>, t: Code)
    requires forall u :: u in w + [t] && u != "EUR" ==> Lookup(x, u) != Some(0.0)
    ensures DerivedRow(x, w + [t]) == Row(x.date, DerivedRow(x, w).cells[OutName(t) := DerivedCell(x, t)])
  {
    OutNamesStep(w, t);
  }

  /** The rows after `frame[OutName(t)] = values`, where `values` holds the
      price of `t` row by row, are the rows derived for one more target. */
  lemma AssignStep(rates: seq<Row>, before: seq<Row>, after: seq<Row>, values: seq<Cell>, w: seq<Code>, t: Code)
    requires NonZeroIn(rates, w) && NonZeroIn(rates, w + [t])
    requires before == DerivedRows(rates, w)
    requires |values| == |rates| && forall k :: 0 <= k < |rates| ==> values[k] == DerivedCell(rates[k], t)
    requires |after| == |before|
    requires forall k :: 0 <= k < |before| ==> after[k] == Row(before[k].date, before[k].cells[OutName(t) := values[k]])
    ensures after == DerivedRows(rates, w + [t])
  {
    forall k | 0 <= k < |rates| ensures after[k] == DerivedRows(rates, w + [t])[k] {
      assert rates[k] in rates;
      DerivedRowStep(rates[k], w, t);
    }
  }

  /** `out[f"{t}_PLN"] = values`, where `values` holds the price of `t` on
      every date: the frame derived for the targets `w` becomes the frame
      derived for `w` and then `t`. */
  method AssignPrice(out: Frame, rates: seq<Row>, ghost w: seq<Code>, t: Code, values: seq<Cell>)
    requires NonZeroIn(rates, w + [t])
    requires out.Valid() && out.columns == Dedup(OutNames(w)) && out.rows == DerivedRows(rates, w)
    requires |values| == |rates| && forall k :: 0 <= k < |rates| ==> values[k] == DerivedCell(rates[k], t)
    modifies out
    ensures out.Valid() && out.columns == Dedup(OutNames(w + [t])) && out.rows == DerivedRows(rates, w + [t])
  {
    ghost var before := out.rows;
    out.SetColumn(OutName(t), values);
    AssignStep(rates, before, out.rows, values, w, t);
    OutNamesStep(w, t);
    DedupStep(OutNames(w), OutName(t));
  }

  /** `compute_pln_rates`: a frame holding the dates of `df` gains one column
      per target, the euro's first, a later assignment of the same name
      replacing the earlier one; rows with no price are dropped and the rest
      sorted by date. */
  method ComputePlnRates(df: Table, targets: seq<Code>) returns (r: Result<Table, DeriveError>)
    requires df.Valid() && NonZeroIn(df.rows, targets)
    ensures r == PlnRates(df, targets)
  {
    if "PLN" !in df.columns {
      return Err(MissingPln);
    }
    var out := new Frame(Table([], DatesOnly(df.rows)));
    assert OutNames([]) == [];
    assert out.rows == DerivedRows(df.rows, []);
    WrittenAll(df.columns, targets);
    if "EUR" in targets {
      assert [] + ["EUR"] == ["EUR"];
      AssignPrice(out, df.rows, [], "EUR", Column(df.rows, "PLN"));
    }
    AssignQuoted(out, df, targets);
    r := Ok(Table(out.columns, SortByDate(KeepPriced(out.rows))));
  }

  /** The loop of `compute_pln_rates` over the targets: each target other
      than the euro that the rates quote gets its column of prices. */
  method AssignQuoted(out: Frame, df: Table, targets: seq<Code>)
    requires df.Valid() && NonZeroIn(df.rows, targets) && "PLN" in df.columns
    requires out.Valid() && out.columns == Dedup(OutNames(WrittenUpTo(df.columns, targets, 0)))
    requires NonZeroIn(df.rows, WrittenUpTo(df.columns, targets, 0))
    requires out.rows == DerivedRows(df.rows, WrittenUpTo(df.columns, targets, 0))
    modifies out
    ensures NonZeroIn(df.rows, Written(df.columns, targets))
    ensures out.Valid() && out.columns == Dedup(OutNames(Written(df.columns, targets)))
    ensures out.rows == DerivedRows(df.rows, Written(df.columns, targets))
  {
    ghost var w := WrittenUpTo(df.columns, targets, 0);
    for i := 0 to |targets|
      invariant out.Valid()
      invariant w == WrittenUpTo(df.columns, targets, i)
      invariant NonZeroIn(df.rows, w)
      invariant out.columns == Dedup(OutNames(w))
      invariant out.rows == DerivedRows(df.rows, w)
    {
      var t := targets[i];
      WrittenStep(df.columns, targets, i);
      if t != "EUR" && t in df.columns {
        QuotientsDefined(df, targets, t);
        assert NonZeroIn(df.rows, w + [t]);
        AssignPrice(out, df.rows, w, t, Quotients(df.rows, t));
        w := w + [t];
      }
    }
    WrittenAll(df.columns, targets);
  }

  /** The output has one column per target that is the euro or that the rates
      quote, named `<target>_PLN`, the euro's first. */
  lemma {:induction false} PlnRatesColumns(df: Table, targets: seq<Code>)
    requires df.Valid() && NonZeroIn(df.rows, targets) && "PLN" in df.columns
    ensures PlnRates(df, targets).Ok?
    ensures forall n :: n in PlnRates(df, targets).value.columns <==>
      exists t :: t in targets && (t == "EUR" || t in df.columns) && n == OutName(t)
    ensures "EUR" in targets ==> PlnRates(df, targets).value.columns[0] == OutName("EUR")
  {
    var w := Written(df.columns, targets);
    if "EUR" in targets {
      DedupFirst(OutNames(w));
    }
  }

  /** A non-empty list keeps its first name first once duplicates are dropped. */
  lemma {:induction false} DedupFirst(s: seq<Code>)
    requires |s| > 0
    ensures |Dedup(s)| > 0 && Dedup(s)[0] == s[0]
  {
    if |s| > 1 {
      DedupFirst(s[..|s| - 1]);
      assert s[..|s| - 1][0] == s[0];
    }
  }

  lemma DerivedRowsDates(rows: seq<Row>, w: seq<Code>)
    requires NonZeroIn(rows, w)
    ensures DateSet(DerivedRows(rows, w)) == DateSet(rows)
    ensures UniqueDates(rows) ==> UniqueDates(DerivedRows(rows, w))
  {
    var d := DerivedRows(rows, w);
    forall e | e in DateSet(rows) ensures e in DateSet(d) {
      var k :| 0 <= k < |rows| && rows[k].date == e;
      assert d[k] in d;
    }
    forall e | e in DateSet(d) ensures e in DateSet(rows) {
      var k :| 0 <= k < |d| && d[k].date == e;
      assert rows[k] in rows;
    }
  }

  /** A derived row has a price exactly when some target in `w` has one. */
  lemma RowPriced(x: Row, w: seq<Code>)
    requires forall t :: t in w && t != "EUR" ==> Lookup(x, t) != Some(0.0)
    ensures HasPrice(DerivedRow(x, w)) <==> exists t :: t in w && DerivedCell(x, t).Some?
  {
    var y := DerivedRow(x, w);
    if HasPrice(y) {
      var n :| n in y.cells && y.cells[n].Some?;
      assert n in OutNames(w);
      var t :| t in w && n == OutName(t);
      assert y.cells[n] == DerivedCell(x, t);
    }
    if exists t :: t in w && DerivedCell(x, t).Some? {
      var t :| t in w && DerivedCell(x, t).Some?;
      var n := OutName(t);
      assert n in OutNames(w);
      assert y.cells[n] == DerivedCell(x, t);
    }
  }

  /** With unique dates, the output holds the row derived from a rates row
      exactly when that row has some price, and then holds it at its date. */
  lemma {:induction false} PricedRowAt(df: Table, targets: seq<Code>, x: Row)
    requires df.Valid() && NonZeroIn(df.rows, targets) && "PLN" in df.columns
    requires UniqueDates(df.rows) && x in df.rows
    ensures x.date in DateSet(PlnRates(df, targets).value.rows) <==>
      HasPrice(DerivedRow(x, Written(df.columns, targets)))
    ensures HasPrice(DerivedRow(x, Written(df.columns, targets))) ==>
      x.date in DateSet(PlnRates(df, targets).value.rows) &&
      RowAt(PlnRates(df, targets).value.rows, x.date) == DerivedRow(x, Written(df.columns, targets))
  {
    var w := Written(df.columns, targets);
    var d := DerivedRows(df.rows, w);
    assert PlnRates(df, targets).value.rows == SortByDate(KeepPriced(d));
    var k :| 0 <= k < |df.rows| && df.rows[k] == x;
    DerivedRowsDates(df.rows, w);
    KeptRowAt(d, k);
  }

  /** Of rows with unique dates, the kept and sorted ones hold row `k`'s date
      exactly when row `k` has a price, and then hold row `k` there. */
  lemma KeptRowAt(d: seq<Row>, k: nat)
    requires UniqueDates(d) && k < |d|
    ensures d[k].date in DateSet(SortByDate(KeepPriced(d))) <==> HasPrice(d[k])
    ensures HasPrice(d[k]) ==>
      d[k].date in DateSet(SortByDate(KeepPriced(d))) && RowAt(SortByDate(KeepPriced(d)), d[k].date) == d[k]
  {
    var kept := KeepPriced(d);
    var y := d[k];
    SortByDateDates(kept);
    forall z | z in kept && z.date == y.date ensures z == y {
      var j :| 0 <= j < |d| && d[j] == z;
      assert d[j].date == d[k].date;
    }
    if HasPrice(y) {
      assert y in kept;
      RowAtUnique(kept, y);
      SortByDateRowAt(kept, y.date);
    }
  }

  /** Some written target has a price on `x` exactly when the PLN rate is
      present and the euro is a target or some quoted target has a rate. */
  lemma SomePrice(x: Row, cols: seq<Code>, targets: seq<Code>)
    requires x.cells.Keys == Elems(cols) && "PLN" in cols
    requires forall t :: t in targets && t != "EUR" ==> Lookup(x, t) != Some(0.0)
    ensures (exists t :: t in Written(cols, targets) && DerivedCell(x, t).Some?) <==>
      x.cells["PLN"].Some? &&
      ("EUR" in targets || exists t :: t in targets && t != "EUR" && t in cols && x.cells[t].Some?)
  {
    if x.cells["PLN"].Some? && "EUR" !in targets && exists t :: t in targets && t != "EUR" && t in cols && x.cells[t].Some? {
      var t :| t in targets && t != "EUR" && t in cols && x.cells[t].Some?;
      assert t in Written(cols, targets) && DerivedCell(x, t).Some?;
    }
    if "EUR" in targets {
      assert "EUR" in Written(cols, targets);
    }
  }

  /** On a date of the rates the output has a row exactly when the PLN rate is
      present and the euro is a target or some quoted target has a rate. */
  lemma {:induction false} PlnRatesKept(df: Table, targets: seq<Code>, x: Row)
    requires df.Valid() && NonZeroIn(df.rows, targets) && "PLN" in df.columns
    requires UniqueDates(df.rows) && x in df.rows
    ensures x.date in DateSet(PlnRates(df, targets).value.rows) <==>
      x.cells["PLN"].Some? &&
      ("EUR" in targets || exists t :: t in targets && t != "EUR" && t in df.columns && x.cells[t].Some?)
  {
    PricedRowAt(df, targets, x);
    RowPriced(x, Written(df.columns, targets));
    SomePrice(x, df.columns, targets);
  }

  /** Where the output has a row for a date of the rates, the euro's price is
      the PLN rate, and any other quoted target's price is the PLN rate divided
      by that target's rate (see `Div`). */
  lemma {:induction false} PlnRatesPrices(df: Table, targets: seq<Code>, x: Row)
    requires df.Valid() && NonZeroIn(df.rows, targets) && "PLN" in df.columns
    requires UniqueDates(df.rows) && x in df.rows
    requires x.date in DateSet(PlnRates(df, targets).value.rows)
    ensures var row := RowAt(PlnRates(df, targets).value.rows, x.date);
      "EUR" in targets ==> OutName("EUR") in row.cells && row.cells[OutName("EUR")] == x.cells["PLN"]
    ensures var row := RowAt(PlnRates(df, targets).value.rows, x.date);
      forall t :: t in targets && t != "EUR" && t in df.columns ==>
        OutName(t) in row.cells && row.cells[OutName(t)] == Div(x.cells["PLN"], x.cells[t])
  {
    var w := Written(df.columns, targets);
    PlnRatesKept(df, targets, x);
    assert RowAt(PlnRates(df, targets).value.rows, x.date) == DerivedRow(x, w) by {
      PricedRowAt(df, targets, x);
    }
    DerivedRowPrices(x, df.columns, targets);
  }

  lemma DerivedRowPrices(x: Row, cols: seq<Code>, targets: seq<Code>)
    requires x.cells.Keys == Elems(cols) && "PLN" in cols
    requires forall t :: t in targets && t != "EUR" ==> Lookup(x, t) != Some(0.0)
    ensures var row := DerivedRow(x, Written(cols, targets));
      "EUR" in targets ==> OutName("EUR") in row.cells && row.cells[OutName("EUR")] == x.cells["PLN"]
    ensures var row := DerivedRow(x, Written(cols, targets));
      forall t :: t in targets && t != "EUR" && t in cols ==>
        OutName(t) in row.cells && row.cells[OutName(t)] == Div(x.cells["PLN"], x.cells[t])
  {
    var w := Written(cols, targets);
    forall t | t in targets && t != "EUR" && t in cols
      ensures OutName(t) in DerivedRow(x, w).cells && DerivedRow(x, w).cells[OutName(t)] == Div(x.cells["PLN"], x.cells[t])
    {
      DerivedRowCell(x, w, t);
    }
    if "EUR" in targets {
      DerivedRowCell(x, w, "EUR");
    }
  }

  /** A derived row holds each written target's price under its output name. */
  lemma DerivedRowCell(x: Row, w: seq<Code>, t: Code)
    requires forall u :: u in w && u != "EUR" ==> Lookup(x, u) != Some(0.0)
    requires t in w
    ensures OutName(t) in DerivedRow(x, w).cells && DerivedRow(x, w).cells[OutName(t)] == DerivedCell(x, t)
  {
    assert OutName(t) in OutNames(w);
  }

  /** A date whose PLN rate is missing has no output row. */
  lemma PlnRatesMissingPln(df: Table, targets: seq<Code>, x: Row)
    requires df.Valid() && NonZeroIn(df.rows, targets) && "PLN" in df.columns
    requires UniqueDates(df.rows) && x in df.rows && x.cells["PLN"] == None
    ensures x.date !in DateSet(PlnRates(df, targets).value.rows)
  {
    PlnRatesKept(df, targets, x);
  }

  /** The output's dates are dates of the rates, in ascending order, each
      once when the rates have each date once. */
  lemma {:induction false} PlnRatesDates(df: Table, targets: seq<Code>)
    requires df.Valid() && NonZeroIn(df.rows, targets) && "PLN" in df.columns
    ensures DateSet(PlnRates(df, targets).value.rows) <= DateSet(df.rows)
    ensures UniqueDates(df.rows) ==> StrictlySorted(PlnRates(df, targets).value.rows)
  {
    var w := Written(df.columns, targets);
    var d := DerivedRows(df.rows, w);
    var kept := KeepPriced(d);
    DerivedRowsDates(df.rows, w);
    SortByDateDates(kept);
    forall e | e in DateSet(kept) ensures e in DateSet(d) {
      var z :| z in kept && z.date == e;
    }
    if UniqueDates(df.rows) {
      SortByDateStrict(kept);
    }
  }
}
