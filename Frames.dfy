/** The mutable pandas frame that the merge and derivation code change in
    place: `frame[col] = values` and `frame.update(other)`. */
module Frames {
  import opened Tables

  /** The rule of `DataFrame.update` for one cell: a present value of the
      other frame wins; a missing one never overwrites. */
  function Patch(mine: Cell, theirs: Cell): Cell {
    if theirs.Some? then theirs else mine
  }

  /** The cell of `other` at date `d` and column `c` once `other` is reindexed
      to this frame's dates: missing where `other` has no such date or column. */
  function OtherCell(other: Table, d: Date, c: Code): Cell {
    if c in other.columns && d in DateSet(other.rows) && c in RowAt(other.rows, d).cells
    then RowAt(other.rows, d).cells[c]
    else None
  }

  /** One row after `update(other)`: each of its cells patched by `other`'s cell at the same date. */
  function UpdatedRow(x: Row, other: Table): Row {
    Row(x.date, map c | c in x.cells :: Patch(x.cells[c], OtherCell(other, x.date, c)))
  }

  function UpdateRows(rows: seq<Row>, other: Table): (r: seq<Row>)
    ensures |r| == |rows|
    ensures forall k :: 0 <= k < |rows| ==> r[k] == UpdatedRow(rows[k], other)
  {
    seq(|rows|, k requires 0 <= k < |rows| => UpdatedRow(rows[k], other))
  }

  /** `self.loc[:, c] = where(isna(that), this, that)`: the one-column step of `update`. */
  function PatchColumn(rows: seq<Row>, other: Table, c: Code): (r: seq<Row>)
    ensures |r| == |rows|
  {
    seq(|rows|, k requires 0 <= k < |rows| =>
      if c in rows[k].cells
      then Row(rows[k].date, rows[k].cells[c := Patch(rows[k].cells[c], OtherCell(other, rows[k].date, c))])
      else rows[k])
  }

  class Frame {
    var columns: seq<Code>
    var rows: seq<Row>

    function Value(): Table
      reads this
    {
      Table(columns, rows)
    }

    predicate Valid()
      reads this
    {
      Value().Valid()
    }

    constructor (t: Table)
      ensures Value() == t
    {
      columns := t.columns;
      rows := t.rows;
    }

    /** `frame[name] = values`: the column is replaced if the frame has it and
        appended otherwise; `values` is aligned with the rows. */
    method SetColumn(name: Code, values: seq<Cell>)
      requires Valid() && |values| == |rows|
      modifies this
      ensures Valid()
      ensures columns == if name in old(columns) then old(columns) else old(columns) + [name]
      ensures |rows| == |old(rows)|
      ensures forall k :: 0 <= k < |rows| ==>
        rows[k] == Row(old(rows)[k].date, old(rows)[k].cells[name := values[k]])
    {
      if name !in columns {
        columns := columns + [name];
      }
      var rs := rows;
      rows := seq(|rs|, k requires 0 <= k < |rs| => Row(rs[k].date, rs[k].cells[name := values[k]]));
      forall x | x in rows ensures x.cells.Keys == Elems(columns) {
        var k :| 0 <= k < |rows| && rows[k] == x;
        assert rs[k] in rs;
      }
    }

    /** `frame.update(other)`, which pandas runs column by column over the
        columns both frames have. */
    method Update(other: Table)
      requires Valid()
      modifies this
      ensures Valid() && columns == old(columns)
      ensures rows == UpdateRows(old(rows), other)
    {
      ghost var start := rows;
      var j := 0;
      assert columns[..0] == [];
      while j < |columns|
        invariant 0 <= j <= |columns| && columns == old(columns) && Table(columns, start).Valid()
        invariant PatchedUpTo(rows, start, other, columns[..j])
      {
        var c := columns[j];
        assert c !in columns[..j];
        assert columns[..j + 1] == columns[..j] + [c];
        PatchStep(rows, start, other, columns[..j], c);
        if c in other.columns {
          rows := PatchColumn(rows, other, c);
        }
        j := j + 1;
      }
      assert columns[..j] == columns;
      PatchDone(rows, start, other, columns);
    }
  }

  /** `rows` is `start` with the columns in `done` patched by `other`, and
      every other cell as it was. */
  ghost predicate PatchedUpTo(rows: seq<Row>, start: seq<Row>, other: Table, done: seq<Code>) {
    && |rows| == |start|
    && (forall k :: 0 <= k < |rows| ==>
         rows[k].date == start[k].date && rows[k].cells.Keys == start[k].cells.Keys)
    && (forall k, c :: 0 <= k < |rows| && c in rows[k].cells && c in start[k].cells ==>
         rows[k].cells[c] == if c in done then UpdatedRow(start[k], other).cells[c] else start[k].cells[c])
  }

  /** Patching one more column, which is left alone when `other` lacks it. */
  lemma PatchStep(rows: seq<Row>, start: seq<Row>, other: Table, done: seq<Code>, c: Code)
    requires PatchedUpTo(rows, start, other, done) && c !in done
    ensures PatchedUpTo(if c in other.columns then PatchColumn(rows, other, c) else rows, start, other, done + [c])
  {
    var next := if c in other.columns then PatchColumn(rows, other, c) else rows;
    forall k, c' | 0 <= k < |next| && c' in next[k].cells && c' in start[k].cells
      ensures next[k].cells[c'] ==
        if c' in done + [c] then UpdatedRow(start[k], other).cells[c'] else start[k].cells[c']
    {
      if c' == c && c !in other.columns {
        assert OtherCell(other, start[k].date, c) == None;
      }
    }
  }

  /** Once every column is patched, the rows are the updated rows. */
  lemma PatchDone(rows: seq<Row>, start: seq<Row>, other: Table, cols: seq<Code>)
    requires Table(cols, start).Valid() && PatchedUpTo(rows, start, other, cols)
    ensures rows == UpdateRows(start, other) && Table(cols, rows).Valid()
  {
    forall k | 0 <= k < |rows| ensures rows[k] == UpdatedRow(start[k], other) {
      assert start[k] in start;
      assert rows[k].cells == UpdatedRow(start[k], other).cells;
    }
    forall x | x in rows ensures x.cells.Keys == Elems(cols) {
      var k :| 0 <= k < |rows| && rows[k] == x;
      assert start[k] in start;
    }
  }
}
