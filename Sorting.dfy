/** `sort_values("date")` and `sort_index()` on the rate table, as a stable
    insertion sort by date. pandas' default sort is not stable, so the two
    differ only in the order of rows that share a date; every merge result
    below has unique dates, where they coincide. */
module Sorting {
  import opened Tables

  /** `x` placed before the first row of `s` that is not earlier than it. */
  function Insert(x: Row, s: seq<Row>): (r: seq<Row>)
    ensures multiset(r) == multiset(s) + multiset{x}
  {
    if s == [] || x.date <= s[0].date then [x] + s
    else
      assert s == [s[0]] + s[1..];
      [s[0]] + Insert(x, s[1..])
  }

  function SortByDate(s: seq<Row>): (r: seq<Row>)
    ensures multiset(r) == multiset(s)
    ensures |r| == |s|
  {
    if s == [] then []
    else
      assert s == [s[0]] + s[1..];
      Insert(s[0], SortByDate(s[1..]))
  }

  lemma {:induction false} InsertSorted(x: Row, s: seq<Row>)
    requires Sorted(s)
    ensures Sorted(Insert(x, s))
  {
    if s == [] || x.date <= s[0].date {
    } else {
      var t := Insert(x, s[1..]);
      InsertSorted(x, s[1..]);
      forall j | 0 <= j < |t| ensures s[0].date <= t[j].date {
        assert t[j] in multiset(t);
        if t[j] != x {
          assert t[j] in s[1..];
        }
      }
    }
  }

  /** The sorted table is ordered by date. */
  lemma {:induction false} SortByDateSorted(s: seq<Row>)
    ensures Sorted(SortByDate(s))
  {
    if s != [] {
      SortByDateSorted(s[1..]);
      InsertSorted(s[0], SortByDate(s[1..]));
    }
  }

  /** Sorting a table that is already in date order changes nothing. */
  lemma {:induction false} SortByDateOfSorted(s: seq<Row>)
    requires Sorted(s)
    ensures SortByDate(s) == s
  {
    if s != [] {
      SortByDateOfSorted(s[1..]);
      assert s == [s[0]] + s[1..];
    }
  }

  lemma {:induction false} InsertUnique(x: Row, s: seq<Row>)
    requires UniqueDates(s) && x.date !in DateSet(s)
    ensures UniqueDates(Insert(x, s))
  {
    if s == [] || x.date <= s[0].date {
      forall j | 0 <= j < |s| ensures s[j].date != x.date {
        assert s[j] in s;
      }
    } else {
      var t := Insert(x, s[1..]);
      forall y | y in s[1..] ensures y.date != x.date {
        assert y in s;
      }
      InsertUnique(x, s[1..]);
      forall j | 0 <= j < |t| ensures s[0].date != t[j].date {
        assert t[j] in multiset(t);
        if t[j] != x {
          var k :| 0 <= k < |s[1..]| && s[1..][k] == t[j];
          assert s[k + 1] == t[j];
        } else {
          assert s[0] in s;
        }
      }
    }
  }

  /** Sorting rows with unique dates gives rows in strictly ascending date order. */
  lemma {:induction false} SortByDateStrict(s: seq<Row>)
    requires UniqueDates(s)
    ensures StrictlySorted(SortByDate(s))
  {
    SortByDateUnique(s);
    SortByDateSorted(s);
  }

  lemma {:induction false} SortByDateUnique(s: seq<Row>)
    requires UniqueDates(s)
    ensures UniqueDates(SortByDate(s))
  {
    if s != [] {
      var rest := SortByDate(s[1..]);
      SortByDateUnique(s[1..]);
      DateSetPermutation(rest, s[1..]);
      forall k | 0 <= k < |s[1..]| ensures s[1..][k].date != s[0].date {
        assert s[1..][k] == s[k + 1];
      }
      InsertUnique(s[0], rest);
    }
  }

  /** With unique dates, the sorted table holds the same row at every date. */
  lemma SortByDateRowAt(s: seq<Row>, d: Date)
    requires UniqueDates(s) && d in DateSet(s)
    ensures d in DateSet(SortByDate(s)) && RowAt(SortByDate(s), d) == RowAt(s, d)
  {
    SortByDateUnique(s);
    RowAtPermutation(s, SortByDate(s), d);
  }

  lemma SortByDateDates(s: seq<Row>)
    ensures DateSet(SortByDate(s)) == DateSet(s)
  {
    DateSetPermutation(SortByDate(s), s);
  }

  lemma SortByDateMembers(s: seq<Row>)
    ensures forall x :: x in SortByDate(s) <==> x in s
  {
    var r := SortByDate(s);
    assert forall x :: x in r <==> x in multiset(r);
    assert forall x :: x in s <==> x in multiset(s);
  }

  /** Sorting the rows keeps a table valid. */
  lemma SortedValid(t: Table)
    requires t.Valid()
    ensures Table(t.columns, SortByDate(t.rows)).Valid()
  {
    SortByDateMembers(t.rows);
  }
}
