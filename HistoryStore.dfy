/** Loading and saving the persisted history table (`load_history`,
    `save_history`). Reading and writing the CSV file is outside the model:
    a file is given as the header and records it holds, or None when no file
    exists, and saving produces the header and records that are written. */
module HistoryStore {
  import opened Tables
  import opened Sorting

  /** One line of the history file: its date and its cells in header order. */
  datatype Record = Record(date: Date, values: seq<Cell>)

  /** A history file: the names of its non-date columns as written, and its lines. */
  datatype StoredTable = StoredTable(header: seq<string>, records: seq<Record>) {
    predicate WellFormed() {
      forall r :: r in records ==> |r.values| == |header|
    }
  }

  /** Python's `str.upper` on ASCII letters. */
  function UpperChar(ch: char): char {
    if 'a' <= ch <= 'z' then (ch as int - 32) as char else ch
  }

  /** Upper-casing yields upper-case text and leaves upper-case text alone. */
  function Upper(s: string): (r: string)
    ensures |r| == |s| && IsUpper(r)
    ensures forall i :: 0 <= i < |s| && !('a' <= s[i] <= 'z') ==> r[i] == s[i]
    ensures forall i :: 0 <= i < |s| && 'a' <= s[i] <= 'z' ==> r[i] as int == s[i] as int - 32
    ensures IsUpper(s) ==> r == s
  {
    seq(|s|, i requires 0 <= i < |s| => UpperChar(s[i]))
  }

  predicate IsUpper(s: string) {
    forall i :: 0 <= i < |s| ==> !('a' <= s[i] <= 'z')
  }

  predicate AllUpper(names: seq<string>) {
    forall c :: c in names ==> IsUpper(c)
  }

  /** The column-name normalisation of `load_history`; it is idempotent. */
  function UpperAll(names: seq<string>): (r: seq<string>)
    ensures |r| == |names| && AllUpper(r)
    ensures forall i :: 0 <= i < |names| ==> r[i] == Upper(names[i])
    ensures AllUpper(names) ==> r == names
  {
    var r := seq(|names|, i requires 0 <= i < |names| => Upper(names[i]));
    assert forall i :: 0 <= i < |names| && names[i] in names ==> r[i] == Upper(names[i]);
    r
  }

  /** A line read under the given column names. */
  function ToRow(cols: seq<Code>, rec: Record): (x: Row)
    requires NoDup(cols) && |rec.values| == |cols|
    ensures x.date == rec.date && x.cells.Keys == Elems(cols)
    ensures forall j :: 0 <= j < |cols| ==> x.cells[cols[j]] == rec.values[j]
  {
    Row(rec.date, map j | 0 <= j < |cols| :: cols[j] := rec.values[j])
  }

  /** A row written out in the order of the given column names. */
  function ToRecord(cols: seq<Code>, x: Row): (rec: Record)
    requires Elems(cols) <= x.cells.Keys
    ensures rec.date == x.date && |rec.values| == |cols|
    ensures forall j :: 0 <= j < |cols| ==> rec.values[j] == x.cells[cols[j]]
  {
    Record(x.date, seq(|cols|, j requires 0 <= j < |cols| => x.cells[cols[j]]))
  }

  /** `load_history`: no file gives the table with no columns and no rows;
      otherwise column names are upper-cased and the rows sorted by date. */
  function LoadHistory(file: Option<StoredTable>): (t: Table)
    requires file.Some? ==> file.value.WellFormed() && NoDup(UpperAll(file.value.header))
    ensures t.Valid() && Sorted(t.rows) && AllUpper(t.columns)
    ensures file.None? ==> t.columns == [] && t.rows == []
    ensures file.Some? ==> t.columns == UpperAll(file.value.header) && |t.rows| == |file.value.records|
    ensures file.Some? ==>
      multiset(t.rows) == multiset(ReadRows(UpperAll(file.value.header), file.value.records))
  {
    match file
    case None => Table([], [])
    case Some(f) =>
      var cols := UpperAll(f.header);
      var read := ReadRows(cols, f.records);
      SortByDateSorted(read);
      SortedValid(Table(cols, read));
      Table(cols, SortByDate(read))
  }

  /** `save_history`: the rows are written in date order under the table's column names. */
  function SaveHistory(t: Table): (f: StoredTable)
    requires t.Valid()
    ensures f.WellFormed() && f.header == t.columns && |f.records| == |t.rows|
    ensures forall i, j :: 0 <= i < j < |f.records| ==> f.records[i].date <= f.records[j].date
  {
    var rows := SortByDate(t.rows);
    SortByDateSorted(t.rows);
    SortedValid(t);
    StoredTable(t.columns, WriteRows(t.columns, rows))
  }

  /** The lines of a file read under the given column names. */
  function ReadRows(cols: seq<Code>, records: seq<Record>): (rows: seq<Row>)
    requires NoDup(cols) && forall r :: r in records ==> |r.values| == |cols|
    ensures Table(cols, rows).Valid() && |rows| == |records|
    ensures forall k :: 0 <= k < |records| ==> rows[k] == ToRow(cols, records[k])
  {
    seq(|records|, k requires 0 <= k < |records| => assert records[k] in records; ToRow(cols, records[k]))
  }

  /** The rows written as lines in the order of the given column names. */
  function WriteRows(cols: seq<Code>, rows: seq<Row>): (records: seq<Record>)
    requires Table(cols, rows).Valid()
    ensures |records| == |rows| && forall r :: r in records ==> |r.values| == |cols|
    ensures forall k :: 0 <= k < |rows| ==> records[k] == ToRecord(cols, rows[k])
  {
    seq(|rows|, k requires 0 <= k < |rows| => assert rows[k] in rows; ToRecord(cols, rows[k]))
  }

  lemma RowRecordRoundTrip(cols: seq<Code>, x: Row)
    requires NoDup(cols) && x.cells.Keys == Elems(cols)
    ensures ToRow(cols, ToRecord(cols, x)) == x
  {
    var y := ToRow(cols, ToRecord(cols, x));
    forall c | c in x.cells ensures y.cells[c] == x.cells[c] {
      var j :| 0 <= j < |cols| && cols[j] == c;
    }
  }

  /** Saving a table with upper-case column names and loading it back gives
      the same table in date order. */
  lemma {:induction false} LoadSaveRoundTrip(t: Table)
    requires t.Valid() && AllUpper(t.columns)
    ensures LoadHistory(Some(SaveHistory(t))) == Table(t.columns, SortByDate(t.rows))
  {
    var f := SaveHistory(t);
    var sorted := SortByDate(t.rows);
    SortedValid(t);
    var read := ReadRows(t.columns, f.records);
    forall k | 0 <= k < |sorted| ensures read[k] == sorted[k] {
      assert sorted[k] in sorted;
      RowRecordRoundTrip(t.columns, sorted[k]);
    }
    assert read == sorted;
    SortByDateSorted(t.rows);
    SortByDateOfSorted(sorted);
  }

  /** Normalisation on load is idempotent: saving a loaded table and loading
      it again changes nothing, whether or not a file existed. */
  lemma {:induction false} LoadSaveLoad(file: Option<StoredTable>)
    requires file.Some? ==> file.value.WellFormed() && NoDup(UpperAll(file.value.header))
    ensures LoadHistory(Some(SaveHistory(LoadHistory(file)))) == LoadHistory(file)
  {
    var t := LoadHistory(file);
    LoadSaveRoundTrip(t);
    SortByDateOfSorted(t.rows);
  }
}
