/**
 * The grouping step of the reservation fetch: the fetched rows become a
 * dictionary from reservation date to the list of `{start, end}` intervals
 * booked on it, built in place one row at a time.
 */
module Grouping {
  import opened Availability

  /**
   * A fetched row (`reservation_date`, `start_time`, `end_time`). The date is
   * the day number counted from 1970-01-01, the same key the page computes
   * from a calendar instant.
   */
  datatype Row = Row(reservationDate: int, startTime: string, endTime: string)

  /** The interval a row contributes: `{ start: start_time, end: end_time }`. */
  function Entry(row: Row): (entry: Interval)
    ensures entry.start == row.startTime && entry.end == row.endTime
  {
    Interval(row.startTime, row.endTime)
  }

  /** The intervals of the rows dated `d`, in fetch order. */
  function On(rows: seq<Row>, d: int): seq<Interval>
  {
    if rows == [] then []
    else (if rows[0].reservationDate == d then [Entry(rows[0])] else []) + On(rows[1..], d)
  }

  /** The dates that occur in `rows`. */
  function Dates(rows: seq<Row>): set<int>
  {
    set r | r in rows :: r.reservationDate
  }

  /** The dictionary the fetch should produce: each fetched date to its intervals. */
  function Grouped(rows: seq<Row>): (m: map<int, seq<Interval>>)
    ensures forall d :: d in m ==> m[d] != []
  {
    DatesHaveIntervals(rows);
    map d | d in Dates(rows) :: On(rows, d)
  }

  /** The dates of `rows`, row by row. */
  function DateColumn(rows: seq<Row>): (ds: seq<int>)
    ensures |ds| == |rows|
    ensures forall j :: 0 <= j < |rows| ==> ds[j] == rows[j].reservationDate
  {
    if rows == [] then [] else [rows[0].reservationDate] + DateColumn(rows[1..])
  }

  // ---------------------------------------------------------------------
  // Facts about the intervals of one date
  // ---------------------------------------------------------------------

  lemma {:induction false} OnAppend(a: seq<Row>, b: seq<Row>, d: int)
    ensures On(a + b, d) == On(a, d) + On(b, d)
    decreases |a|
  {
    if a == [] {
      assert a + b == b;
    } else {
      var head := if a[0].reservationDate == d then [Entry(a[0])] else [];
      assert (a + b)[0] == a[0] && (a + b)[1..] == a[1..] + b;
      assert On(a + b, d) == head + On(a[1..] + b, d);
      OnAppend(a[1..], b, d);
      assert head + (On(a[1..], d) + On(b, d)) == (head + On(a[1..], d)) + On(b, d);
    }
  }

  /** A date has intervals exactly when some row carries it. */
  lemma {:induction false} OnEmpty(rows: seq<Row>, d: int)
    ensures On(rows, d) == [] <==> d !in Dates(rows)
    decreases |rows|
  {
    if rows != [] {
      OnEmpty(rows[1..], d);
      assert Dates(rows) == {rows[0].reservationDate} + Dates(rows[1..]) by {
        assert rows == [rows[0]] + rows[1..];
      }
    }
  }

  /** Every fetched date has at least one interval. */
  lemma DatesHaveIntervals(rows: seq<Row>)
    ensures forall d :: d in Dates(rows) ==> On(rows, d) != []
  {
    forall d | d in Dates(rows)
      ensures On(rows, d) != []
    {
      OnEmpty(rows, d);
    }
  }

  /** Each date's list holds as many intervals as there are rows with that date. */
  lemma {:induction false} OnCount(rows: seq<Row>, d: int)
    ensures |On(rows, d)| == multiset(DateColumn(rows))[d]
    decreases |rows|
  {
    if rows != [] {
      OnCount(rows[1..], d);
      assert DateColumn(rows) == [rows[0].reservationDate] + DateColumn(rows[1..]);
    }
  }

  /** Adding one row to the end extends its date's list by its interval. */
  lemma GroupedSnoc(rows: seq<Row>, row: Row)
    ensures Grouped(rows + [row]) ==
      Grouped(rows)[row.reservationDate :=
        (if row.reservationDate in Grouped(rows) then Grouped(rows)[row.reservationDate] else []) + [Entry(row)]]
  {
    var d := row.reservationDate;
    var before, after := Grouped(rows), Grouped(rows + [row]);
    var expected := before[d := (if d in before then before[d] else []) + [Entry(row)]];
    assert Dates(rows + [row]) == Dates(rows) + {d};
    assert [row][1..] == [];
    forall e | e in after
      ensures e in expected && after[e] == expected[e]
    {
      OnAppend(rows, [row], e);
      if e == d && d !in before {
        OnEmpty(rows, d);
      }
    }
  }

  // ---------------------------------------------------------------------
  // The loop
  // ---------------------------------------------------------------------

  /**
   * `data.forEach(entry => { if (!m[date]) m[date] = []; m[date].push({start, end}) })`:
   * builds the dictionary of the fetched rows one row at a time.
   */
  method MapReservations(data: seq<Row>) returns (mapped: map<int, seq<Interval>>)
    ensures mapped == Grouped(data)
  {
    mapped := map[];
    var i := 0;
    while i < |data|
      invariant 0 <= i <= |data|
      invariant mapped == Grouped(data[..i])
    {
      var entry := data[i];
      if entry.reservationDate !in mapped {
        mapped := mapped[entry.reservationDate := []];
      }
      mapped := mapped[entry.reservationDate := mapped[entry.reservationDate] + [Entry(entry)]];
      assert data[..i + 1] == data[..i] + [entry];
      GroupedSnoc(data[..i], entry);
      i := i + 1;
    }
    assert data[..i] == data;
  }

  // ---------------------------------------------------------------------
  // What the dictionary holds
  // ---------------------------------------------------------------------

  /**
   * The keys are exactly the fetched dates, and no key maps to an empty list;
   * each list is as long as the number of rows with that date.
   */
  lemma GroupedShape(rows: seq<Row>, d: int)
    ensures d in Grouped(rows) <==> exists j :: 0 <= j < |rows| && rows[j].reservationDate == d
    ensures d in Grouped(rows) ==> Grouped(rows)[d] != []
    ensures d in Grouped(rows) ==> |Grouped(rows)[d]| == multiset(DateColumn(rows))[d]
  {
    OnEmpty(rows, d);
    OnCount(rows, d);
    if d in Dates(rows) {
      var r :| r in rows && r.reservationDate == d;
      var j :| 0 <= j < |rows| && rows[j] == r;
    }
  }

  /**
   * Row `j` sits in its date's list at the position given by the number of
   * earlier rows with that date: the rows of one date appear once each, in
   * fetch order.
   */
  lemma GroupedPosition(rows: seq<Row>, j: nat)
    requires j < |rows|
    ensures rows[j].reservationDate in Grouped(rows)
    ensures |On(rows[..j], rows[j].reservationDate)| < |Grouped(rows)[rows[j].reservationDate]|
    ensures Grouped(rows)[rows[j].reservationDate][|On(rows[..j], rows[j].reservationDate)|] == Entry(rows[j])
  {
    var d := rows[j].reservationDate;
    assert rows == rows[..j] + ([rows[j]] + rows[j + 1..]);
    OnAppend(rows[..j], [rows[j]] + rows[j + 1..], d);
    assert ([rows[j]] + rows[j + 1..])[1..] == rows[j + 1..];
    assert rows[j] in rows;
  }
}
