/** The wide rate table kept by the FX history tool: one row per date, one
    column per currency code ever seen. Rates are "1 EUR = X units of the
    currency", as the European Central Bank publishes them.

    A pandas frame carries its `date` column beside the currency columns; here
    every row carries its date and `columns` lists only the currency columns. */
module Tables {

  datatype Option<+T> = None | Some(value: T)

  datatype Result<+T, +E> = Ok(value: T) | Err(error: E)

  /** A calendar date as a day number; only its order matters. */
  type Date = int

  /** A column name: a currency code such as "USD", or a derived name such as "USD_PLN". */
  type Code = string

  /** One cell: a rate, or None where pandas holds NaN. */
  type Cell = Option<real>

  datatype Row = Row(date: Date, cells: map<Code, Cell>)

  datatype Table = Table(columns: seq<Code>, rows: seq<Row>) {
    /** Column names are distinct and every row has a cell for each column and no other. */
    predicate Valid() {
      NoDup(columns) && forall x :: x in rows ==> x.cells.Keys == Elems(columns)
    }
  }

  predicate NoDup<T(==)>(s: seq<T>) {
    forall i, j :: 0 <= i < j < |s| ==> s[i] != s[j]
  }

  function Elems<T(==)>(s: seq<T>): set<T> {
    set x | x in s
  }

  /** The elements of `src` that `other` lacks, in the order of `src`. */
  function Minus(src: seq<Code>, other: seq<Code>): (r: seq<Code>)
    ensures forall x :: x in r <==> x in src && x !in other
    ensures NoDup(src) ==> NoDup(r)
  {
    if src == [] then []
    else
      var init := src[..|src| - 1];
      var x := src[|src| - 1];
      assert src == init + [x];
      var p := Minus(init, other);
      if x in other then p else p + [x]
  }

  lemma MinusEmpty(src: seq<Code>, other: seq<Code>)
    requires forall x :: x in src ==> x in other
    ensures Minus(src, other) == []
  {
    if src != [] {
      MinusEmpty(src[..|src| - 1], other);
    }
  }

  /** `x` keyed by exactly `cols`: a cell it has keeps its value, any other is missing.
      This is how pandas aligns a row to a wider column set. */
  function Pad(x: Row, cols: seq<Code>): (r: Row)
    ensures r.date == x.date && r.cells.Keys == Elems(cols)
    ensures forall c :: c in cols && c in x.cells ==> r.cells[c] == x.cells[c]
    ensures forall c :: c in cols && c !in x.cells ==> r.cells[c] == None
  {
    Row(x.date, map c | c in cols :: if c in x.cells then x.cells[c] else None)
  }

  function PadAll(rows: seq<Row>, cols: seq<Code>): (r: seq<Row>)
    ensures |r| == |rows|
    ensures forall k :: 0 <= k < |rows| ==> r[k] == Pad(rows[k], cols)
  {
    seq(|rows|, k requires 0 <= k < |rows| => Pad(rows[k], cols))
  }

  /** Aligning a row to exactly the columns it has changes nothing. */
  lemma PadOwnColumns(x: Row, cols: seq<Code>)
    requires x.cells.Keys == Elems(cols)
    ensures Pad(x, cols) == x
  {
    assert Pad(x, cols).cells == x.cells;
  }

  /** Aligning the rows of a valid table to its own columns changes nothing. */
  lemma PadAllOwnColumns(t: Table)
    requires t.Valid()
    ensures PadAll(t.rows, t.columns) == t.rows
  {
    forall k | 0 <= k < |t.rows| ensures Pad(t.rows[k], t.columns) == t.rows[k] {
      assert t.rows[k] in t.rows;
    }
  }

  /** `pd.concat([a, b])` along the rows: the columns of `a`, then those only `b`
      has; each row is widened with missing cells to that union. */
  function Concat(a: Table, b: Table): (r: Table)
    ensures r.columns == a.columns + Minus(b.columns, a.columns)
    ensures r.rows == PadAll(a.rows, r.columns) + PadAll(b.rows, r.columns)
    ensures a.Valid() && b.Valid() ==> r.Valid()
  {
    NoDupUnion(a.columns, b.columns);
    var u := a.columns + Minus(b.columns, a.columns);
    Table(u, PadAll(a.rows, u) + PadAll(b.rows, u))
  }

  /** Appending the columns a frame lacks keeps the names distinct. */
  lemma NoDupUnion(a: seq<Code>, b: seq<Code>)
    ensures NoDup(a) && NoDup(b) ==> NoDup(a + Minus(b, a))
  {
    if NoDup(a) && NoDup(b) {
      var m := Minus(b, a);
      forall i, j | 0 <= i < j < |a + m| ensures (a + m)[i] != (a + m)[j] {
        if i < |a| && |a| <= j {
          assert (a + m)[j] in m;
        }
      }
    }
  }

  function DateSet(s: seq<Row>): set<Date> {
    set x | x in s :: x.date
  }

  predicate Sorted(s: seq<Row>) {
    forall i, j :: 0 <= i < j < |s| ==> s[i].date <= s[j].date
  }

  predicate StrictlySorted(s: seq<Row>) {
    forall i, j :: 0 <= i < j < |s| ==> s[i].date < s[j].date
  }

  predicate UniqueDates(s: seq<Row>) {
    forall i, j :: 0 <= i < j < |s| ==> s[i].date != s[j].date
  }

  /** The first row of `s` dated `d`; with unique dates, the row dated `d`. */
  function RowAt(s: seq<Row>, d: Date): (r: Row)
    requires d in DateSet(s)
    ensures r in s && r.date == d
  {
    if s[0].date == d then s[0]
    else
      assert d in DateSet(s[1..]) by {
        var x :| x in s && x.date == d;
        assert x in s[1..];
      }
      RowAt(s[1..], d)
  }

  lemma RowAtUnique(s: seq<Row>, y: Row)
    requires UniqueDates(s) && y in s
    ensures y.date in DateSet(s) && RowAt(s, y.date) == y
  {
    var r := RowAt(s, y.date);
    var i :| 0 <= i < |s| && s[i] == r;
    var j :| 0 <= j < |s| && s[j] == y;
    assert s[i].date == s[j].date;
    assert i == j;
  }

  /** Two arrangements of the same rows with unique dates agree on the row at every date. */
  lemma RowAtPermutation(a: seq<Row>, b: seq<Row>, d: Date)
    requires multiset(a) == multiset(b) && UniqueDates(a) && UniqueDates(b)
    requires d in DateSet(a)
    ensures d in DateSet(b) && RowAt(b, d) == RowAt(a, d)
  {
    var x := RowAt(a, d);
    assert x in multiset(a);
    assert x in b;
    RowAtUnique(b, x);
  }

  lemma DateSetPermutation(a: seq<Row>, b: seq<Row>)
    requires multiset(a) == multiset(b)
    ensures DateSet(a) == DateSet(b)
  {
    forall d | d in DateSet(a) ensures d in DateSet(b) {
      var x :| x in a && x.date == d;
      assert x in multiset(a);
      assert x in b;
    }
    forall d | d in DateSet(b) ensures d in DateSet(a) {
      var x :| x in b && x.date == d;
      assert x in multiset(b);
      assert x in a;
    }
  }

  lemma DateSetAppend(a: seq<Row>, b: seq<Row>)
    ensures DateSet(a + b) == DateSet(a) + DateSet(b)
  {
    forall d | d in DateSet(a + b) ensures d in DateSet(a) + DateSet(b) {
      var x :| x in a + b && x.date == d;
    }
    forall d | d in DateSet(a) + DateSet(b) ensures d in DateSet(a + b) {
      if d in DateSet(a) {
        var x :| x in a && x.date == d;
        assert x in a + b;
      } else {
        var x :| x in b && x.date == d;
        assert x in a + b;
      }
    }
  }

  /** Rows with unique dates stay unique when joined with rows on other dates. */
  lemma UniqueAppend(a: seq<Row>, b: seq<Row>)
    requires UniqueDates(a) && UniqueDates(b) && DateSet(a) !! DateSet(b)
    ensures UniqueDates(a + b)
  {
    forall i, j | 0 <= i < j < |a + b| ensures (a + b)[i].date != (a + b)[j].date {
      if i < |a| && |a| <= j {
        assert (a + b)[i] in a && (a + b)[i].date in DateSet(a);
        assert (a + b)[j] in b && (a + b)[j].date in DateSet(b);
      }
    }
  }

  /** In a concatenation, the row at a date of the first part comes from the first part. */
  lemma RowAtAppend(a: seq<Row>, b: seq<Row>, d: Date)
    requires d in DateSet(a) || d in DateSet(b)
    ensures d in DateSet(a + b)
    ensures RowAt(a + b, d) == if d in DateSet(a) then RowAt(a, d) else RowAt(b, d)
  {
    DateSetAppend(a, b);
    if a == [] {
      assert a + b == b;
    } else if a[0].date == d {
    } else {
      if d in DateSet(a) {
        var x :| x in a && x.date == d;
        assert x in a[1..];
      }
      RowAtAppend(a[1..], b, d);
      assert (a + b)[1..] == a[1..] + b;
    }
  }

  lemma DateSetPadAll(rows: seq<Row>, cols: seq<Code>)
    ensures DateSet(PadAll(rows, cols)) == DateSet(rows)
  {
    var p := PadAll(rows, cols);
    forall d | d in DateSet(rows) ensures d in DateSet(p) {
      var k :| 0 <= k < |rows| && rows[k].date == d;
      assert p[k] in p;
    }
    forall d | d in DateSet(p) ensures d in DateSet(rows) {
      var k :| 0 <= k < |p| && p[k].date == d;
      assert rows[k] in rows;
    }
  }

  lemma UniquePadAll(rows: seq<Row>, cols: seq<Code>)
    requires UniqueDates(rows)
    ensures UniqueDates(PadAll(rows, cols))
  {
  }

  /** Padding commutes with looking a date up. */
  lemma RowAtPadAll(rows: seq<Row>, cols: seq<Code>, d: Date)
    requires UniqueDates(rows) && d in DateSet(rows)
    ensures d in DateSet(PadAll(rows, cols))
    ensures RowAt(PadAll(rows, cols), d) == Pad(RowAt(rows, d), cols)
  {
    var x := RowAt(rows, d);
    var k :| 0 <= k < |rows| && rows[k] == x;
    var p := PadAll(rows, cols);
    assert p[k] in p;
    RowAtUnique(p, p[k]);
  }
}
