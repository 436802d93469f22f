/** Small rooms worked through by hand: what the allocator returns for them. */
module Scenarios {
  import opened Layout
  import opened SeatingRules
  import opened Unseated

  /** A row of two desks has four seats. */
  lemma TwoDeskRow()
    ensures SeatCount([Desk, Desk]) == 4
  {
    assert [Desk, Desk][1..] == [Desk];
  }

  /** A single pin: its dictionary, whether it is honoured, its errors, and
      whether its row lookup raises. */
  lemma OnePin(rows: seq<Row>, c: Coord, x: string)
    ensures PinMap([(c, x)]) == map[c := x]
    ensures HonouredPins(rows, [(c, x)]) == if PinVerdict(rows, c) == Accepted then map[c := x] else map[]
    ensures Diagnostics(rows, [(c, x)]) == DiagnosticOf(rows, c)
    ensures FirstLookupFailure(rows, [(c, x)], 0) == if PinVerdict(rows, c) == RowLookupFails then Some(0) else None
  {
    assert [(c, x)][..0] == [];
  }

  /** The free seats of a room of one two-desk row: seats 1 and 3 unless pinned. */
  lemma TwoDeskFreeSeats(pinned: set<Coord>)
    ensures FreeRows([[Desk, Desk]], 1, pinned) ==
            (if (1, 1) !in pinned then [(1, 1)] else []) + (if (1, 3) !in pinned then [(1, 3)] else [])
  {
    TwoDeskRow();
    FreeInRowDesk(1, 0, pinned);
    FreeInRowDesk(1, 1, pinned);
    assert FreeInRow(1, 0, pinned) == [];
  }

  /** The pool of a two-name roster: each name unless it is used. */
  lemma TwoNamePool(a: string, b: string, used: set<string>)
    ensures Remaining([a, b], used) == (if a in used then [] else [a]) + (if b in used then [] else [b])
  {
    assert [a, b][1..] == [b] && [a, b][1..][1..] == [];
  }

  /** Joining a one-seat map to a chart is updating the chart at that seat. */
  lemma AddSeat(m: map<Coord, string>, c: Coord, v: string)
    ensures m + map[c := v] == m[c := v]
  {
    assert (m + map[c := v]).Keys == m[c := v].Keys;
  }

  /** The two odd seats of a row of two desks, given two names. */
  lemma TwoSeatFill(r: int, x: string, y: string)
    ensures Zip([(r, 1), (r, 3)], [x, y]) == map[(r, 1) := x, (r, 3) := y]
  {
    ZipSnoc([], [], (r, 1), x);
    ZipSnoc([(r, 1)], [x], (r, 3), y);
  }

  /** The room of `NoPinsFillsOddSeats` before auto-fill. */
  lemma NoPinsInputs()
    ensures var rows: seq<Row> := [[Desk, Desk]];
            HonouredPins(rows, []) == map[] &&
            Pool(["A", "B", "C"], rows, []) == ["A", "B", "C"] &&
            FreeSeats(rows, []) == [(1, 1), (1, 3)] &&
            Diagnostics(rows, []) == [] &&
            FirstLookupFailure(rows, [], 0) == None
  {
    var none: set<Coord> := {};
    assert PinMap([]).Keys == none;
    TwoDeskFreeSeats(none);
    assert ["A", "B", "C"][1..] == ["B", "C"];
    TwoNamePool("B", "C", {});
  }

  /** The auto-filled part of `NoPinsFillsOddSeats`. */
  lemma NoPinsFill()
    ensures var rows: seq<Row> := [[Desk, Desk]];
            var students := ["A", "B", "C"];
            FillCount(students, rows, []) == 2 &&
            Zip(FreeSeats(rows, [])[..2], Pool(students, rows, [])[..2]) == map[(1, 1) := "A", (1, 3) := "B"]
  {
    NoPinsInputs();
    TwoSeatFill(1, "A", "B");
    var rows: seq<Row> := [[Desk, Desk]];
    var students := ["A", "B", "C"];
    assert FreeSeats(rows, [])[..2] == [(1, 1), (1, 3)];
    assert Pool(students, rows, [])[..2] == ["A", "B"];
  }

  /** One row of two desks, three students, no pins: the odd seats 1 and 3 go
      to the first two students, seats 2 and 4 stay empty, and the third student
      is the one the page reports as not fitting. */
  lemma NoPinsFillsOddSeats()
    ensures var students := ["A", "B", "C"];
            var outcome := SeatingChart(students, [[Desk, Desk]], []);
            outcome == Chart(map[(1, 1) := "A", (1, 3) := "B"], 2, []) &&
            ReportedUnseated(students, outcome) == Some(1)
  {
    var chart := map[(1, 1) := "A", (1, 3) := "B"];
    NoPinsInputs();
    NoPinsFill();
    assert map[] + chart == chart;
  }

  /** The room of `PinnedSeatIsSkipped` before auto-fill. */
  lemma PinnedSeatInputs()
    ensures var rows: seq<Row> := [[Desk, Desk]];
            var pins: seq<Pin> := [((1, 1), "Z")];
            HonouredPins(rows, pins) == map[(1, 1) := "Z"] &&
            HonouredPins(rows, pins).Values == {"Z"} &&
            Pool(["A", "B"], rows, pins) == ["A", "B"] &&
            FreeSeats(rows, pins) == [(1, 3)] &&
            Diagnostics(rows, pins) == [] &&
            FirstLookupFailure(rows, pins, 0) == None
  {
    var rows: seq<Row> := [[Desk, Desk]];
    TwoDeskRow();
    assert PinVerdict(rows, (1, 1)) == Accepted;
    OnePin(rows, (1, 1), "Z");
    SingletonValues((1, 1), "Z");
    TwoDeskFreeSeats({(1, 1)});
    TwoNamePool("A", "B", {"Z"});
  }

  /** The chart of `PinnedSeatIsSkipped`. */
  lemma PinnedSeatChart()
    ensures SeatingChart(["A", "B"], [[Desk, Desk]], [((1, 1), "Z")]) ==
            Chart(map[(1, 1) := "Z", (1, 3) := "A"], 2, [])
  {
    var students: seq<string> := ["A", "B"];
    var rows: seq<Row> := [[Desk, Desk]];
    var pins: seq<Pin> := [((1, 1), "Z")];
    var chart := map[(1, 1) := "Z", (1, 3) := "A"];
    PinnedSeatInputs();
    assert FillCount(students, rows, pins) == 1;
    assert Zip([(1, 3)], ["A"]) == map[(1, 3) := "A"] by {
      assert [(1, 3)][..0] == [] && ["A"][..0] == [];
    }
    assert FreeSeats(rows, pins)[..1] == [(1, 3)];
    assert Pool(students, rows, pins)[..1] == ["A"];
    AddSeat(map[(1, 1) := "Z"], (1, 3), "A");
  }

  /** The same row with seat 1 pinned to someone off the roster: auto-fill skips
      seat 1 and gives seat 3 to the first student; the second does not fit,
      yet the placed count (one seat filled plus one pin) equals the roster size,
      so the page shows no message. */
  lemma PinnedSeatIsSkipped()
    ensures var students := ["A", "B"];
            var outcome := SeatingChart(students, [[Desk, Desk]], [((1, 1), "Z")]);
            outcome == Chart(map[(1, 1) := "Z", (1, 3) := "A"], 2, []) &&
            ReportedUnseated(students, outcome) == None &&
            UnseatedCount(students, [[Desk, Desk]], [((1, 1), "Z")]) == 1
  {
    var students: seq<string> := ["A", "B"];
    var rows: seq<Row> := [[Desk, Desk]];
    var pins: seq<Pin> := [((1, 1), "Z")];
    PinnedSeatChart();
    PinnedSeatInputs();
    assert FillCount(students, rows, pins) == 1;
    assert (set x | x in students) * {"Z"} == {};
  }

  /** The room of `SeatPastTheRowIsReported` before auto-fill: the pin is
      reported and dropped, both students stay in the pool and both odd seats are free. */
  lemma SeatPastTheRowInputs()
    ensures var rows: seq<Row> := [[Desk, Desk]];
            var pins: seq<Pin> := [((1, 5), "A")];
            HonouredPins(rows, pins) == map[] &&
            Pool(["A", "B"], rows, pins) == ["A", "B"] &&
            FreeSeats(rows, pins) == [(1, 1), (1, 3)] &&
            Diagnostics(rows, pins) == [SeatMissing((1, 5))] &&
            FirstLookupFailure(rows, pins, 0) == None
  {
    var rows: seq<Row> := [[Desk, Desk]];
    TwoDeskRow();
    assert PinVerdict(rows, (1, 5)) == SeatOutOfRange;
    OnePin(rows, (1, 5), "A");
    TwoDeskFreeSeats({(1, 5)});
    TwoNamePool("A", "B", {});
  }

  /** A pin on seat 5 of a row with four seats is reported and dropped, and its
      student stays in the pool and is auto-filled like the others. */
  lemma SeatPastTheRowIsReported()
    ensures SeatingChart(["A", "B"], [[Desk, Desk]], [((1, 5), "A")]) ==
            Chart(map[(1, 1) := "A", (1, 3) := "B"], 3, [SeatMissing((1, 5))])
  {
    var students: seq<string> := ["A", "B"];
    var rows: seq<Row> := [[Desk, Desk]];
    var pins: seq<Pin> := [((1, 5), "A")];
    var chart := map[(1, 1) := "A", (1, 3) := "B"];
    SeatPastTheRowInputs();
    TwoSeatFill(1, "A", "B");
    assert FillCount(students, rows, pins) == 2;
    assert FreeSeats(rows, pins)[..2] == [(1, 1), (1, 3)];
    assert Pool(students, rows, pins)[..2] == ["A", "B"];
    assert map[] + chart == chart;
  }

  /** Updating the right operand of a union updates the union. */
  lemma UnionUpdate(m: map<Coord, string>, n: map<Coord, string>, c: Coord, v: string)
    ensures m + n[c := v] == (m + n)[c := v]
  {
    assert (m + n[c := v]).Keys == (m + n)[c := v].Keys;
  }

  /** The room of `RowZeroReadsTheLastRow` before auto-fill: the pin on row 0
      is accepted against the last row, nobody on the roster is pinned, and
      both odd seats are free. */
  lemma RowZeroInputs()
    ensures var rows: seq<Row> := [[Desk, Desk]];
            var pins: seq<Pin> := [((0, 3), "Z")];
            HonouredPins(rows, pins) == map[(0, 3) := "Z"] &&
            Pool(["A", "B"], rows, pins) == ["A", "B"] &&
            FreeSeats(rows, pins) == [(1, 1), (1, 3)] &&
            Diagnostics(rows, pins) == [] &&
            FirstLookupFailure(rows, pins, 0) == None
  {
    var rows: seq<Row> := [[Desk, Desk]];
    TwoDeskRow();
    assert PinVerdict(rows, (0, 3)) == Accepted;
    OnePin(rows, (0, 3), "Z");
    SingletonValues((0, 3), "Z");
    TwoDeskFreeSeats({(0, 3)});
    TwoNamePool("A", "B", {"Z"});
  }

  /** The auto-filled part of `RowZeroReadsTheLastRow`. */
  lemma RowZeroFill()
    ensures var rows: seq<Row> := [[Desk, Desk]];
            var students := ["A", "B"];
            var pins: seq<Pin> := [((0, 3), "Z")];
            FillCount(students, rows, pins) == 2 &&
            Zip(FreeSeats(rows, pins)[..2], Pool(students, rows, pins)[..2]) == map[(1, 1) := "A", (1, 3) := "B"]
  {
    var students: seq<string> := ["A", "B"];
    var rows: seq<Row> := [[Desk, Desk]];
    var pins: seq<Pin> := [((0, 3), "Z")];
    RowZeroInputs();
    TwoSeatFill(1, "A", "B");
    assert FreeSeats(rows, pins)[..2] == [(1, 1), (1, 3)];
    assert Pool(students, rows, pins)[..2] == ["A", "B"];
  }

  /** A pin on row 0 passes the range check and is looked up as
      `row_config[-1]`, the last row: it is kept under the key (0, 3), and
      seat 3 of that last row, the seat it meant, is auto-filled as well. */
  lemma RowZeroReadsTheLastRow()
    ensures SeatingChart(["A", "B"], [[Desk, Desk]], [((0, 3), "Z")]) ==
            Chart(map[(0, 3) := "Z", (1, 1) := "A", (1, 3) := "B"], 3, [])
  {
    RowZeroInputs();
    RowZeroFill();
    var pin := map[(0, 3) := "Z"];
    var empty: map<Coord, string> := map[];
    assert pin + empty == pin;
    UnionUpdate(pin, empty, (1, 1), "A");
    UnionUpdate(pin, map[(1, 1) := "A"], (1, 3), "B");
  }
}
